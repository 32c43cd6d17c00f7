/**
 * The Redis-backed chat memory: each conversation is one Redis list of JSON-encoded
 * messages under the conversation id, newest at the head.
 *
 * The JSON mapper is a `Codec` parameter. Its round trip is the one assumption about it
 * (`Faithful`): an encoded message reads back as the record of its type, text and
 * metadata. UUID generation is a parameter too: `Add` takes the UUID texts it draws.
 */
module RedisChatMemory {
  import opened Wrappers
  import opened Seqs
  import opened RedisList
  import opened Messages
  import opened Errors
  import opened ChatMsgs
  import opened UuidText

  /** The metadata key that carries a message's id. */
  const IdKey: string := "id"

  /** What reading one stored entry as a chat record yields. */
  datatype Decoded =
      /** The entry is not valid JSON for a chat record. */
    | Malformed
      /** The entry is the JSON literal null. */
    | JsonNull
    | Record(msg: ChatMsg)

  /** The JSON mapper: writing a message, and reading an entry as a chat record. */
  datatype Codec = Codec(encode: Message -> Option<string>, decode: string -> Decoded)

  /** Reading back what was written yields the message's type, text and metadata. */
  ghost predicate Faithful(codec: Codec) {
    forall m :: codec.encode(m).Some? ==> codec.decode(codec.encode(m).value) == Record(Project(m))
  }

  // ---------------------------------------------------------------------------------------
  // add

  /** The message with `id` stored under the metadata key "id", replacing any earlier id. */
  function Tag(m: Message, id: string): (t: Message)
    ensures t.Kind() == m.Kind() && t.text == m.text
    ensures IdKey in t.metadata && t.metadata[IdKey] == Str(id)
    ensures t.metadata - {IdKey} == m.metadata - {IdKey}
    ensures t.(metadata := m.metadata) == m
  {
    m.(metadata := m.metadata[IdKey := Str(id)])
  }

  /** The id generated for the message at position i of a batch. */
  function IdAt(uuids: seq<string>, i: nat): string
    requires i < |uuids|
  {
    StripHyphens(uuids[i])
  }

  /**
   * The position of the first message of a batch that cannot be encoded once tagged, or
   * the batch length when all can.
   */
  ghost function FirstUnencodable(codec: Codec, msgs: seq<Message>, uuids: seq<string>): (k: nat)
    requires |uuids| == |msgs|
    ensures k <= |msgs|
    ensures forall i :: 0 <= i < k ==> codec.encode(Tag(msgs[i], IdAt(uuids, i))).Some?
    ensures k < |msgs| ==> codec.encode(Tag(msgs[k], IdAt(uuids, k))).None?
    decreases |msgs|
  {
    if msgs == [] then 0
    else
      var n := |msgs| - 1;
      var k := FirstUnencodable(codec, msgs[..n], uuids[..n]);
      assert forall i :: 0 <= i < n ==> msgs[..n][i] == msgs[i] && IdAt(uuids[..n], i) == IdAt(uuids, i);
      if k < n then k
      else if codec.encode(Tag(msgs[n], IdAt(uuids, n))).None? then n
      else n + 1
  }

  /**
   * The batch after encoding: the caller's messages as they stand afterwards, and the
   * encoded entries or the encoding error.
   */
  datatype Batch = Batch(tagged: seq<Message>, encoded: Result<seq<string>, StoreError>)

  /**
   * Tags and encodes the messages one after the other, stopping at the first that cannot
   * be encoded; a message is tagged before it is encoded, so the failing one is tagged too.
   * Defined on the batch without its last message, which is handled only when all before
   * it were encoded.
   */
  function EncodeBatch(codec: Codec, msgs: seq<Message>, uuids: seq<string>): (b: Batch)
    requires |uuids| == |msgs|
    ensures |b.tagged| == |msgs|
    ensures b.encoded.Success? <==> FirstUnencodable(codec, msgs, uuids) == |msgs|
    ensures b.encoded.Failure? ==> b.encoded.error == SerializationFailed
    ensures b.encoded.Success? ==>
      |b.encoded.value| == |msgs| && forall i :: 0 <= i < |msgs| ==> codec.encode(b.tagged[i]) == Some(b.encoded.value[i])
    decreases |msgs|
  {
    if msgs == [] then Batch([], Success([]))
    else
      var n := |msgs| - 1;
      var pre := EncodeBatch(codec, msgs[..n], uuids[..n]);
      assert forall i :: 0 <= i < n ==> msgs[..n][i] == msgs[i] && IdAt(uuids[..n], i) == IdAt(uuids, i);
      var last := Tag(msgs[n], IdAt(uuids, n));
      match pre.encoded
      case Failure(e) => Batch(pre.tagged + [msgs[n]], Failure(e))
      case Success(entries) =>
        match codec.encode(last)
        case None => Batch(pre.tagged + [last], Failure(SerializationFailed))
        case Some(entry) => Batch(pre.tagged + [last], Success(entries + [entry]))
  }

  /**
   * Encoding a batch tags exactly the messages up to and including the first that cannot be
   * encoded, each with the id generated for its position; the rest are left as they were.
   */
  lemma {:induction false} EncodeBatchTags(codec: Codec, msgs: seq<Message>, uuids: seq<string>)
    requires |uuids| == |msgs|
    ensures var b := EncodeBatch(codec, msgs, uuids);
      forall i :: 0 <= i < |msgs| ==>
        b.tagged[i] == if i <= FirstUnencodable(codec, msgs, uuids) then Tag(msgs[i], IdAt(uuids, i)) else msgs[i]
    decreases |msgs|
  {
    if msgs != [] {
      var n := |msgs| - 1;
      EncodeBatchTags(codec, msgs[..n], uuids[..n]);
      var pre := EncodeBatch(codec, msgs[..n], uuids[..n]);
      var b := EncodeBatch(codec, msgs, uuids);
      var k := FirstUnencodable(codec, msgs[..n], uuids[..n]);
      var kb := FirstUnencodable(codec, msgs, uuids);
      var last := if k < n then msgs[n] else Tag(msgs[n], IdAt(uuids, n));
      assert pre.encoded.Failure? <==> k < n;
      assert b.tagged == pre.tagged + [last];
      assert k < n ==> kb == k;
      assert k == n ==> kb >= n;
      forall i | 0 <= i < |msgs|
        ensures b.tagged[i] == if i <= kb then Tag(msgs[i], IdAt(uuids, i)) else msgs[i]
      {
        if i < n {
          assert b.tagged[i] == pre.tagged[i];
          assert msgs[..n][i] == msgs[i] && IdAt(uuids[..n], i) == IdAt(uuids, i);
        } else {
          assert b.tagged[i] == last;
        }
      }
    }
  }

  /**
   * The result of `add`: the store, the caller's messages as mutated by the call, and the
   * entries pushed (or the error that aborted the call).
   */
  datatype AddOutcome = AddOutcome(store: Store, messages: seq<Message>, pushed: Result<seq<string>, StoreError>)

  /**
   * add(conversationId, messages): an empty batch does nothing. Otherwise every message
   * gets a fresh id in its metadata and is encoded; only when the whole batch is encoded
   * are the entries pushed to the head of the conversation's list, in one LPUSH.
   */
  function Add(codec: Codec, s: Store, c: string, msgs: seq<Message>, uuids: seq<string>): (r: AddOutcome)
    requires |uuids| == |msgs|
    ensures msgs == [] ==> r == AddOutcome(s, [], Success([]))
    ensures r.store - {c} == s - {c}
    ensures WellFormed(s) ==> WellFormed(r.store)
    ensures |r.messages| == |msgs|
    ensures r.pushed.Failure? ==> r.store == s && r.pushed.error == SerializationFailed
    ensures r.pushed.Success? <==> forall i :: 0 <= i < |msgs| ==> codec.encode(Tag(msgs[i], IdAt(uuids, i))).Some?
    ensures forall i :: 0 <= i < |msgs| ==>
      r.messages[i] == if i <= FirstUnencodable(codec, msgs, uuids) then Tag(msgs[i], IdAt(uuids, i)) else msgs[i]
    ensures r.pushed.Success? ==>
      && |r.pushed.value| == |msgs|
      && (forall i :: 0 <= i < |msgs| ==> codec.encode(r.messages[i]) == Some(r.pushed.value[i]))
      && ListAt(r.store, c) == Reverse(r.pushed.value) + ListAt(s, c)
  {
    if msgs == [] then AddOutcome(s, [], Success([]))
    else
      var batch := EncodeBatch(codec, msgs, uuids);
      EncodeBatchTags(codec, msgs, uuids);
      match batch.encoded
      case Failure(e) => AddOutcome(s, batch.tagged, Failure(e))
      case Success(entries) => AddOutcome(LPushAll(s, c, entries), batch.tagged, Success(entries))
  }

  /**
   * Every message of a batch that `add` tagged carries a 32-digit lowercase hex id, and
   * messages at different positions carry different ids when their UUIDs differ.
   */
  lemma AddIds(codec: Codec, s: Store, c: string, msgs: seq<Message>, uuids: seq<string>)
    requires |uuids| == |msgs|
    requires forall i :: 0 <= i < |uuids| ==> IsUuidText(uuids[i])
    ensures var r := Add(codec, s, c, msgs, uuids);
      r.pushed.Success? ==> forall i :: 0 <= i < |msgs| ==>
        exists id :: r.messages[i].metadata[IdKey] == Str(id) && |id| == 32 && IsHex(id)
    ensures forall i, j :: 0 <= i < j < |uuids| && uuids[i] != uuids[j] ==> IdAt(uuids, i) != IdAt(uuids, j)
  {
    forall i | 0 <= i < |uuids| ensures |IdAt(uuids, i)| == 32 && IsHex(IdAt(uuids, i)) {
      UuidId(uuids[i]);
    }
    forall i, j | 0 <= i < j < |uuids| && uuids[i] != uuids[j] ensures IdAt(uuids, i) != IdAt(uuids, j) {
      UuidIdInjective(uuids[i], uuids[j]);
    }
    var r := Add(codec, s, c, msgs, uuids);
    if r.pushed.Success? {
      forall i | 0 <= i < |msgs|
        ensures exists id :: r.messages[i].metadata[IdKey] == Str(id) && |id| == 32 && IsHex(id)
      {
        var id := IdAt(uuids, i);
        assert r.messages[i].metadata[IdKey] == Str(id);
      }
    }
  }

  // ---------------------------------------------------------------------------------------
  // get

  /** Reads one stored entry back as a message. */
  function Convert(codec: Codec, entry: string): (r: Result<Message, StoreError>)
    ensures codec.decode(entry).Malformed? ==> r == Failure(DeserializationFailed)
    ensures codec.decode(entry).JsonNull? ==> r == Failure(NullReference)
    ensures codec.decode(entry).Record? ==> r == ToMessage(codec.decode(entry).msg)
    ensures r.Success? ==> codec.decode(entry).Record?
    ensures r.Failure? ==> r.error in {DeserializationFailed, NullReference, UnsupportedMessageType(Tool)}
  {
    match codec.decode(entry)
    case Malformed => Failure(DeserializationFailed)
    case JsonNull => Failure(NullReference)
    case Record(m) => ToMessage(m)
  }

  /** The position of the first entry that cannot be read back, or the number of entries. */
  function FirstFailing(codec: Codec, entries: seq<string>): (k: nat)
    ensures k <= |entries|
    ensures forall i :: 0 <= i < k ==> Convert(codec, entries[i]).Success?
    ensures k < |entries| ==> Convert(codec, entries[k]).Failure?
  {
    if entries == [] then 0
    else
      var n := |entries| - 1;
      var k := FirstFailing(codec, entries[..n]);
      assert forall i :: 0 <= i < n ==> entries[..n][i] == entries[i];
      if k < n then k
      else if Convert(codec, entries[n]).Failure? then n
      else n + 1
  }

  /**
   * Converts the entries in order; the first entry that fails decides the error and no
   * messages are returned.
   */
  function ConvertAll(codec: Codec, entries: seq<string>): (r: Result<seq<Message>, StoreError>)
    ensures r.Success? <==> forall i :: 0 <= i < |entries| ==> Convert(codec, entries[i]).Success?
    ensures r.Success? ==>
      |r.value| == |entries| && forall i :: 0 <= i < |entries| ==> r.value[i] == Convert(codec, entries[i]).value
    ensures r.Failure? ==>
      (FirstFailing(codec, entries) < |entries| && Convert(codec, entries[FirstFailing(codec, entries)]) == Failure(r.error))
    decreases |entries|
  {
    if entries == [] then Success([])
    else
      var n := |entries| - 1;
      assert forall i :: 0 <= i < n ==> entries[..n][i] == entries[i];
      match ConvertAll(codec, entries[..n])
      case Failure(e) => Failure(e)
      case Success(ms) =>
        match Convert(codec, entries[n])
        case Failure(e) => Failure(e)
        case Success(m) => Success(ms + [m])
  }

  /**
   * The part of `get` after the fetch: an empty range gives no messages; otherwise each
   * entry is decoded and converted, then put through the stream's `sorted` with a
   * comparator that always answers -1. The JDK sorts with TimSort, which takes such an
   * input as one strictly descending run and reverses it, so the result is the range back
   * to front.
   */
  function ReadBack(codec: Codec, window: seq<string>): (r: Result<seq<Message>, StoreError>)
    ensures r.Success? <==> forall i :: 0 <= i < |window| ==> Convert(codec, window[i]).Success?
    ensures r.Success? ==> |r.value| == |window|
    ensures r.Success? ==> forall i {:trigger r.value[i]} :: 0 <= i < |r.value| ==>
      r.value[i] == Convert(codec, window[|window| - 1 - i]).value
    ensures r.Failure? ==>
      (FirstFailing(codec, window) < |window| && Convert(codec, window[FirstFailing(codec, window)]) == Failure(r.error))
  {
    if window == [] then Success([])
    else
      match ConvertAll(codec, window)
      case Failure(e) => Failure(e)
      case Success(ms) => Success(Reverse(ms))
  }

  /**
   * get(conversationId, lastN): LRANGE 0 lastN (lastN is an inclusive end index, -1 meaning
   * the whole list), read back oldest first.
   */
  function Get(codec: Codec, s: Store, c: string, lastN: int): (r: Result<seq<Message>, StoreError>)
    ensures c !in s ==> r == Success([])
    ensures r.Success? <==>
      forall i :: 0 <= i < HeadWindow(|ListAt(s, c)|, lastN) ==> Convert(codec, ListAt(s, c)[i]).Success?
    ensures r.Success? ==> |r.value| == HeadWindow(|ListAt(s, c)|, lastN)
    ensures r.Success? ==> forall i {:trigger r.value[i]} :: 0 <= i < |r.value| ==>
      r.value[i] == Convert(codec, ListAt(s, c)[|r.value| - 1 - i]).value
    ensures r.Failure? ==> r.error in {DeserializationFailed, NullReference, UnsupportedMessageType(Tool)}
  {
    var l := ListAt(s, c);
    var window := LRange(s, c, 0, lastN);
    assert window == l[..HeadWindow(|l|, lastN)];
    assert forall i :: 0 <= i < |window| ==> window[i] == l[i];
    ReadBack(codec, window)
  }

  /** `get` reads back the head window of the conversation's list. */
  lemma GetIsReadBack(codec: Codec, s: Store, c: string, lastN: int)
    ensures Get(codec, s, c, lastN) == ReadBack(codec, ListAt(s, c)[..HeadWindow(|ListAt(s, c)|, lastN)])
  {
    assert LRange(s, c, 0, lastN) == ListAt(s, c)[..HeadWindow(|ListAt(s, c)|, lastN)];
  }

  /** The number of messages `get` returns: lastN + 1 for lastN >= 0, all for -1. */
  lemma GetSize(codec: Codec, s: Store, c: string, lastN: int)
    ensures var r := Get(codec, s, c, lastN); r.Success? ==>
      && (lastN >= 0 ==> |r.value| == if lastN + 1 < |ListAt(s, c)| then lastN + 1 else |ListAt(s, c)|)
      && (lastN == -1 ==> |r.value| == |ListAt(s, c)|)
      && (ListAt(s, c) == [] ==> r.value == [])
  {
  }

  /** A failing `get` reports the error of the first entry of the range that fails, head first. */
  lemma GetFailureIsFirst(codec: Codec, s: Store, c: string, lastN: int)
    ensures var r := Get(codec, s, c, lastN);
      r.Failure? ==> exists i :: (0 <= i < HeadWindow(|ListAt(s, c)|, lastN) &&
        Convert(codec, ListAt(s, c)[i]) == Failure(r.error) &&
        forall j :: 0 <= j < i ==> Convert(codec, ListAt(s, c)[j]).Success?)
  {
    var window := LRange(s, c, 0, lastN);
    var l := ListAt(s, c);
    assert window == l[..HeadWindow(|l|, lastN)];
    var r := Get(codec, s, c, lastN);
    if r.Failure? {
      assert r == ReadBack(codec, window);
      var i := FirstFailing(codec, window);
      assert window[i] == l[i];
      assert forall j :: 0 <= j < i ==> window[j] == l[j];
    }
  }

  /**
   * When the entries of the range before position k all read back and the entry at k does
   * not, `get` fails with the error of the entry at k.
   */
  lemma GetFailsAt(codec: Codec, s: Store, c: string, lastN: int, k: nat)
    requires k < HeadWindow(|ListAt(s, c)|, lastN)
    requires forall i :: 0 <= i < k ==> Convert(codec, ListAt(s, c)[i]).Success?
    requires Convert(codec, ListAt(s, c)[k]).Failure?
    ensures Get(codec, s, c, lastN) == Failure(Convert(codec, ListAt(s, c)[k]).error)
  {
    var l := ListAt(s, c);
    var window := l[..HeadWindow(|l|, lastN)];
    GetIsReadBack(codec, s, c, lastN);
    assert window[k] == l[k];
    assert forall i :: 0 <= i < k ==> window[i] == l[i];
    assert FirstFailing(codec, window) == k;
  }

  /** A malformed entry in the range, first among those that fail, makes `get` fail to deserialize. */
  lemma GetRejectsMalformed(codec: Codec, s: Store, c: string, lastN: int, k: nat)
    requires k < HeadWindow(|ListAt(s, c)|, lastN)
    requires forall i :: 0 <= i < k ==> Convert(codec, ListAt(s, c)[i]).Success?
    requires codec.decode(ListAt(s, c)[k]).Malformed?
    ensures Get(codec, s, c, lastN) == Failure(DeserializationFailed)
  {
    GetFailsAt(codec, s, c, lastN, k);
  }

  /**
   * An entry holding the JSON literal null, first among those that fail, makes `get` fail
   * with a null dereference in `toMessage`.
   */
  lemma GetRejectsNull(codec: Codec, s: Store, c: string, lastN: int, k: nat)
    requires k < HeadWindow(|ListAt(s, c)|, lastN)
    requires forall i :: 0 <= i < k ==> Convert(codec, ListAt(s, c)[i]).Success?
    requires codec.decode(ListAt(s, c)[k]).JsonNull?
    ensures Get(codec, s, c, lastN) == Failure(NullReference)
  {
    GetFailsAt(codec, s, c, lastN, k);
  }

  /**
   * A tool-response record in the range makes `get` fail with an unsupported-type error
   * instead of being dropped, provided every entry in the range is a readable record.
   */
  lemma GetRejectsToolRecord(codec: Codec, s: Store, c: string, lastN: int, k: nat)
    requires k < HeadWindow(|ListAt(s, c)|, lastN)
    requires forall i :: 0 <= i < HeadWindow(|ListAt(s, c)|, lastN) ==> codec.decode(ListAt(s, c)[i]).Record?
    requires codec.decode(ListAt(s, c)[k]).msg.messageType == Tool
    ensures Get(codec, s, c, lastN) == Failure(UnsupportedMessageType(Tool))
  {
    var r := Get(codec, s, c, lastN);
    assert Convert(codec, ListAt(s, c)[k]).Failure?;
    assert r.Failure?;
  }

  // ---------------------------------------------------------------------------------------
  // clear

  /** clear(conversationId): DEL of the conversation's key. */
  function Clear(s: Store, c: string): (r: Store)
    ensures c !in r
    ensures r - {c} == s - {c}
    ensures c !in s ==> r == s
    ensures WellFormed(s) ==> WellFormed(r)
  {
    Del(s, c)
  }

  /** After `clear`, `get` returns no messages whatever lastN is; clearing twice is clearing once. */
  lemma ClearEmpties(codec: Codec, s: Store, c: string, lastN: int)
    ensures Get(codec, Clear(s, c), c, lastN) == Success([])
    ensures Clear(Clear(s, c), c) == Clear(s, c)
  {
  }

  // ---------------------------------------------------------------------------------------
  // deleteByMessageId

  /** The stored entry reads back as a record whose id is `id`. */
  predicate IdMatches(codec: Codec, id: string, entry: string) {
    && codec.decode(entry).Record?
    && IdKey in codec.decode(entry).msg.metadata
    && codec.decode(entry).msg.metadata[IdKey] == Str(id)
  }

  /** The scan can inspect the entry without failing: it is JSON null, or a record with a non-null id. */
  predicate Scannable(codec: Codec, entry: string) {
    match codec.decode(entry)
    case Malformed => false
    case JsonNull => true
    case Record(m) => IdKey in m.metadata && m.metadata[IdKey] != Null
  }

  /** The entries whose id is not `id`, in their order. */
  function Survivors(codec: Codec, id: string, entries: seq<string>): (r: seq<string>)
    ensures |r| <= |entries|
    ensures (forall i :: 0 <= i < |entries| ==> !IdMatches(codec, id, entries[i])) ==> r == entries
  {
    if entries == [] then []
    else if IdMatches(codec, id, entries[0]) then Survivors(codec, id, entries[1..])
    else [entries[0]] + Survivors(codec, id, entries[1..])
  }

  /** The survivors of a concatenation are the survivors of its parts. */
  lemma {:induction false} SurvivorsAppend(codec: Codec, id: string, a: seq<string>, b: seq<string>)
    ensures Survivors(codec, id, a + b) == Survivors(codec, id, a) + Survivors(codec, id, b)
    decreases |a|
  {
    if a == [] {
      assert a + b == b;
    } else {
      var ab := a + b;
      assert ab[0] == a[0] && ab[1..] == a[1..] + b;
      SurvivorsAppend(codec, id, a[1..], b);
      if IdMatches(codec, id, a[0]) {
        assert Survivors(codec, id, ab) == Survivors(codec, id, a[1..] + b);
      } else {
        assert Survivors(codec, id, ab) == [a[0]] + Survivors(codec, id, a[1..] + b);
      }
    }
  }

  /** The position of the first entry the scan fails on, or the number of entries. */
  function FirstUnscannable(codec: Codec, entries: seq<string>): (k: nat)
    ensures k <= |entries|
    ensures forall i :: 0 <= i < k ==> Scannable(codec, entries[i])
    ensures k < |entries| ==> !Scannable(codec, entries[k])
  {
    if entries == [] || !Scannable(codec, entries[0]) then 0
    else 1 + FirstUnscannable(codec, entries[1..])
  }

  /** The result of deleteByMessageId: the store, and whether the call threw. */
  datatype DeleteOutcome = DeleteOutcome(store: Store, status: Outcome<StoreError>)

  /**
   * The scan over a snapshot of the list: each entry is decoded; an entry that is not JSON
   * aborts with a deserialization error, a JSON null is skipped, a record without an id (or
   * with a null id) aborts with a null reference, and a record whose id is `id` is removed
   * from the live list by LREM 1 of the entry exactly as it was fetched. Removals made
   * before an abort stay.
   */
  function Scan(codec: Codec, s: Store, c: string, id: string, pending: seq<string>): (r: DeleteOutcome)
    ensures r.store - {c} == s - {c}
    ensures WellFormed(s) ==> WellFormed(r.store)
    ensures r.status.Fail? ==> r.status.error in {DeserializationFailed, NullReference}
    ensures r.status.Fail? ==>
      && FirstUnscannable(codec, pending) < |pending|
      && r.status.error == if codec.decode(pending[FirstUnscannable(codec, pending)]).Malformed?
                           then DeserializationFailed else NullReference
    decreases |pending|
  {
    if pending == [] then DeleteOutcome(s, Pass)
    else
      var entry := pending[0];
      match codec.decode(entry)
      case Malformed => DeleteOutcome(s, Fail(DeserializationFailed))
      case JsonNull => Scan(codec, s, c, id, pending[1..])
      case Record(m) =>
        if IdKey !in m.metadata || m.metadata[IdKey] == Null then DeleteOutcome(s, Fail(NullReference))
        else if m.metadata[IdKey] == Str(id) then Scan(codec, LRem(s, c, entry), c, id, pending[1..])
        else Scan(codec, s, c, id, pending[1..])
  }

  /**
   * The list the scan is meant to leave behind for a pending snapshot: matching entries
   * dropped up to the first entry it fails on, everything from there on kept.
   */
  function AfterScan(codec: Codec, id: string, pending: seq<string>): (r: seq<string>)
    ensures |r| <= |pending|
  {
    if pending == [] then []
    else if !Scannable(codec, pending[0]) then pending
    else if IdMatches(codec, id, pending[0]) then AfterScan(codec, id, pending[1..])
    else [pending[0]] + AfterScan(codec, id, pending[1..])
  }

  /** `AfterScan` is the survivors of the part before the first unscannable entry, then the rest. */
  lemma {:induction false} AfterScanSplits(codec: Codec, id: string, pending: seq<string>)
    ensures var k := FirstUnscannable(codec, pending);
      AfterScan(codec, id, pending) == Survivors(codec, id, pending[..k]) + pending[k..]
    decreases |pending|
  {
    var k := FirstUnscannable(codec, pending);
    if pending == [] || !Scannable(codec, pending[0]) {
      assert k == 0 && pending[..0] == [] && pending[0..] == pending;
    } else {
      var rest := pending[1..];
      var k' := FirstUnscannable(codec, rest);
      AfterScanSplits(codec, id, rest);
      assert k == k' + 1;
      assert pending[..k][1..] == rest[..k'];
      assert pending[k..] == rest[k'..];
      if IdMatches(codec, id, pending[0]) {
        assert Survivors(codec, id, pending[..k]) == Survivors(codec, id, rest[..k']);
      } else {
        assert Survivors(codec, id, pending[..k]) == [pending[0]] + Survivors(codec, id, rest[..k']);
      }
    }
  }

  /**
   * The effect of the scan on the conversation's list: when the list is some entries that
   * do not match followed by the pending snapshot, the scan leaves those entries followed by
   * `AfterScan` of the snapshot.
   */
  lemma {:induction false} ScanEffect(codec: Codec, s: Store, c: string, id: string, kept: seq<string>, pending: seq<string>)
    requires ListAt(s, c) == kept + pending
    requires forall x :: x in kept ==> !IdMatches(codec, id, x)
    ensures ListAt(Scan(codec, s, c, id, pending).store, c) == kept + AfterScan(codec, id, pending)
    decreases |pending|
  {
    if pending == [] || !Scannable(codec, pending[0]) {
    } else {
      var entry := pending[0];
      if IdMatches(codec, id, entry) {
        assert entry !in kept;
        RemoveFirstAfter(kept, pending, entry);
        ScanEffect(codec, LRem(s, c, entry), c, id, kept, pending[1..]);
      } else {
        KeptGrows(codec, id, kept, pending);
        ScanEffect(codec, s, c, id, kept + [entry], pending[1..]);
        assert (kept + [entry]) + AfterScan(codec, id, pending[1..]) == kept + ([entry] + AfterScan(codec, id, pending[1..]));
      }
    }
  }

  /** A non-matching entry moves from the pending part to the kept part. */
  lemma KeptGrows(codec: Codec, id: string, kept: seq<string>, pending: seq<string>)
    requires forall x :: x in kept ==> !IdMatches(codec, id, x)
    requires pending != [] && !IdMatches(codec, id, pending[0])
    ensures forall x :: x in kept + [pending[0]] ==> !IdMatches(codec, id, x)
    ensures kept + pending == (kept + [pending[0]]) + pending[1..]
  {
    assert pending == [pending[0]] + pending[1..];
  }

  /** The scan completes without an error exactly when it reaches the end of the snapshot. */
  lemma {:induction false} ScanStatus(codec: Codec, s: Store, c: string, id: string, pending: seq<string>)
    ensures Scan(codec, s, c, id, pending).status.Pass? <==> FirstUnscannable(codec, pending) == |pending|
    decreases |pending|
  {
    if pending != [] && Scannable(codec, pending[0]) {
      if IdMatches(codec, id, pending[0]) {
        ScanStatus(codec, LRem(s, c, pending[0]), c, id, pending[1..]);
      } else {
        ScanStatus(codec, s, c, id, pending[1..]);
      }
    }
  }

  /** When no pending entry matches, the scan touches nothing, whether or not it fails. */
  lemma {:induction false} ScanWithoutMatch(codec: Codec, s: Store, c: string, id: string, pending: seq<string>)
    ensures (forall i :: 0 <= i < |pending| ==> !IdMatches(codec, id, pending[i])) ==>
      Scan(codec, s, c, id, pending).store == s
    decreases |pending|
  {
    if pending != [] && forall i :: 0 <= i < |pending| ==> !IdMatches(codec, id, pending[i]) {
      assert forall i :: 0 <= i < |pending[1..]| ==> pending[1..][i] == pending[i + 1];
      ScanWithoutMatch(codec, s, c, id, pending[1..]);
    }
  }

  /** The scan's effect when it starts from the whole list. */
  lemma ScanOfWholeList(codec: Codec, s: Store, c: string, id: string)
    ensures var l := ListAt(s, c);
      var r := Scan(codec, s, c, id, l);
      var k := FirstUnscannable(codec, l);
      && (r.status.Pass? <==> k == |l|)
      && ListAt(r.store, c) == Survivors(codec, id, l[..k]) + l[k..]
  {
    var l := ListAt(s, c);
    assert [] + l == l;
    ScanEffect(codec, s, c, id, [], l);
    AfterScanSplits(codec, id, l);
    ScanStatus(codec, s, c, id, l);
  }

  /** The scan completes exactly when every entry is scannable. */
  lemma ScannableAll(codec: Codec, l: seq<string>)
    ensures FirstUnscannable(codec, l) == |l| <==> forall i :: 0 <= i < |l| ==> Scannable(codec, l[i])
  {
  }

  /**
   * deleteByMessageId(conversationId, messageId): fetch the whole list (LRANGE 0 -1) and
   * scan it, removing the entries whose id is `messageId`.
   */
  function DeleteByMessageId(codec: Codec, s: Store, c: string, messageId: string): (r: DeleteOutcome)
    ensures r.store - {c} == s - {c}
    ensures WellFormed(s) ==> WellFormed(r.store)
    ensures r.status.Fail? ==> r.status.error in {DeserializationFailed, NullReference}
    ensures r.status.Pass? <==> forall i :: 0 <= i < |ListAt(s, c)| ==> Scannable(codec, ListAt(s, c)[i])
    ensures var l := ListAt(s, c); r.status.Fail? ==>
      && FirstUnscannable(codec, l) < |l|
      && r.status.error == if codec.decode(l[FirstUnscannable(codec, l)]).Malformed?
                           then DeserializationFailed else NullReference
    ensures var k := FirstUnscannable(codec, ListAt(s, c));
      ListAt(r.store, c) == Survivors(codec, messageId, ListAt(s, c)[..k]) + ListAt(s, c)[k..]
    ensures r.status.Pass? ==> ListAt(r.store, c) == Survivors(codec, messageId, ListAt(s, c))
    ensures (forall i :: 0 <= i < |ListAt(s, c)| ==> !IdMatches(codec, messageId, ListAt(s, c)[i])) ==> r.store == s
  {
    var snapshot := LRange(s, c, 0, -1);
    assert snapshot == ListAt(s, c);
    ScanOfWholeList(codec, s, c, messageId);
    ScannableAll(codec, snapshot);
    assert snapshot[..|snapshot|] == snapshot;
    ScanWithoutMatch(codec, s, c, messageId, snapshot);
    Scan(codec, s, c, messageId, snapshot)
  }

  /**
   * When exactly one stored entry carries the id (ids are generated per message, so this is
   * the usual case), deleteByMessageId removes that entry and keeps the others in order.
   */
  lemma DeleteUniqueId(codec: Codec, s: Store, c: string, messageId: string, k: nat)
    requires k < |ListAt(s, c)|
    requires forall i :: 0 <= i < |ListAt(s, c)| ==> Scannable(codec, ListAt(s, c)[i])
    requires forall i :: 0 <= i < |ListAt(s, c)| ==> (IdMatches(codec, messageId, ListAt(s, c)[i]) <==> i == k)
    ensures var r := DeleteByMessageId(codec, s, c, messageId);
      r.status == Pass && ListAt(r.store, c) == ListAt(s, c)[..k] + ListAt(s, c)[k + 1..]
  {
    var l := ListAt(s, c);
    assert l == l[..k] + [l[k]] + l[k + 1..];
    SurvivorsAppend(codec, messageId, l[..k] + [l[k]], l[k + 1..]);
    SurvivorsAppend(codec, messageId, l[..k], [l[k]]);
    assert Survivors(codec, messageId, l[..k]) == l[..k];
    var tail := l[k + 1..];
    assert forall i {:trigger tail[i]} :: 0 <= i < |tail| ==> tail[i] == l[k + 1 + i];
    assert Survivors(codec, messageId, tail) == tail;
    assert Survivors(codec, messageId, [l[k]]) == [];
  }
}
