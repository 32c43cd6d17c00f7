# Redis chat memory, modelled in Dafny

This project models the chat memory that stores the messages of each conversation in Redis
(`SpringAiRedisChatMemory`), and the record type that messages are read back into (`ChatMsg`).

Each conversation is one Redis list under the conversation id. The list holds one JSON string
per message, with the newest at the head. The store has four operations:

- `add` tags every message with a fresh id, encodes the batch, and pushes it with one LPUSH.
- `get` fetches the range `0..lastN`, decodes and converts every entry, and returns them
  reversed (oldest first).
- `clear` deletes the key.
- `deleteByMessageId` scans a snapshot of the whole list. It removes, by LREM 1, each stored
  entry whose id matches.

The modules follow the program:

- `Wrappers` holds `Option`, `Result` and `Outcome`.
- `Seqs` holds reversal and removal of the first occurrence.
- `RedisList` holds the Redis store as `map<string, seq<string>>`, with LPUSH, LRANGE, DEL and
  LREM. A well-formed store never holds an empty list, as in Redis.
- `Messages` holds the framework's message kinds and metadata values.
- `Errors` holds the exceptions the operations can end in.
- `ChatMsgs` holds the `ChatMsg` record and `toMessage`.
- `UuidText` holds UUID texts, hyphen stripping, and the 32-digit ids it produces.
- `RedisChatMemory` holds the four store operations.
- `ConversationHistory` holds series of adds, and the chronological round trip through `get`.

The JSON mapper is a parameter `Codec`, a pair of functions: `encode` and `decode`. `decode`
tells a malformed entry, the JSON literal `null` and a record apart. The one assumption about
the mapper is the predicate `Faithful`. It says an encoded message reads back as the record of
its type, text and metadata. Lemmas that need the assumption require it.

The UUIDs that `add` draws are a parameter too.

Exceptions are error values:

- serialization failure;
- deserialization failure;
- a null dereference, for a null record in `get` or a missing id in `deleteByMessageId`;
- an unsupported message type.

Effects that happen before an exception are kept. `add` has already put the id into the
metadata of the messages up to the failing one. `deleteByMessageId` keeps the removals it made
before the failing entry.

Three points of the code are easy to misread:

- `get` does not return the list's order (newest first). The comparator at
  `SpringAiRedisChatMemory.java:89` always answers -1. The JDK's TimSort takes such an input as
  one strictly descending run and reverses it. So `get` returns the range back to front, oldest
  first. `ReadBack` models this as an explicit reversal.
- `deleteByMessageId` issues one LREM 1 per matching snapshot entry, so every entry carrying
  the id goes, not only the first.
- `lastN` is an inclusive end index, as the comment at line 67 says. `get(c, 5)` returns up to
  six messages. The comments at lines 66 and 72 ("the latest 5", "0 to lastN-1") do not match
  the code.

## Model

| member | source | states |
|---|---|---|
| RedisList.LPushAll | src/main/java/com/liyuxiang/memory/SpringAiRedisChatMemory.java:58 | A multi-value LPUSH puts the values at the head in reverse order above the old list. It leaves every other key alone and keeps the store free of empty lists. |
| RedisList.LRange | src/main/java/com/liyuxiang/memory/SpringAiRedisChatMemory.java:73 | LRANGE with an inclusive stop. An in-range stop gives the slice `start..stop`. A stop past the end is clamped to the last element. `0, -1` gives the whole list. A missing key gives the empty list. From 0 it is the head window. |
| RedisList.Del | src/main/java/com/liyuxiang/memory/SpringAiRedisChatMemory.java:100 | DEL removes the key and nothing else. Deleting a missing key changes nothing. |
| RedisList.LRem | src/main/java/com/liyuxiang/memory/SpringAiRedisChatMemory.java:119 | LREM 1 removes the first occurrence of the value, counted from the head. It touches no other key, and when there is no occurrence the store is unchanged. A list it empties disappears with its key. |
| Seqs.RemoveFirst | src/main/java/com/liyuxiang/memory/SpringAiRedisChatMemory.java:119 | Removing the first occurrence leaves the elements before it and after it, in order. A sequence without the value is unchanged. |
| Seqs.ReverseReverse | src/main/java/com/liyuxiang/memory/SpringAiRedisChatMemory.java:89 | Reversal, used for LPUSH order and for the comparator's effect, is its own inverse. |
| ChatMsgs.ToMessage | src/main/java/com/liyuxiang/entity/ChatMsg.java:27-33 | Conversion succeeds exactly for the system, user and assistant types, and any other type fails as unsupported. It keeps the type and the text, and adds no media and no tool calls. Metadata is kept, except that a system message has none. |
| ChatMsgs.ProjectInvertsToMessage | src/main/java/com/liyuxiang/entity/ChatMsg.java:28-31 | Taking type, text and metadata of a converted record gives the record back, except that a system record loses its metadata. |
| ChatMsgs.ReloadedKeeps | src/main/java/com/liyuxiang/entity/ChatMsg.java:29-31 | A stored message other than a tool response reads back with its kind and text. It keeps its metadata unless it is a system message. A bare user or assistant message reads back unchanged. |
| UuidText.UuidId | src/main/java/com/liyuxiang/memory/SpringAiRedisChatMemory.java:51 | Stripping the hyphens of a UUID text gives 32 lowercase hex digits, and putting the hyphens back gives the UUID text. |
| UuidText.HyphenateIsUuid | src/main/java/com/liyuxiang/memory/SpringAiRedisChatMemory.java:51 | Any 32 hex digits are the stripped form of the UUID text `Hyphenate` builds from them, and of no other UUID text. |
| UuidText.UuidIdInjective | src/main/java/com/liyuxiang/memory/SpringAiRedisChatMemory.java:51 | Different UUID texts give different ids. |
| RedisChatMemory.Tag | src/main/java/com/liyuxiang/memory/SpringAiRedisChatMemory.java:51 | Tagging sets the metadata key "id" to the new id, overwriting any earlier one. Kind, text and all other metadata stay as they were. Media, tool calls and tool responses are unchanged as well. |
| RedisChatMemory.EncodeBatch | src/main/java/com/liyuxiang/memory/SpringAiRedisChatMemory.java:47-57 | Encoding the batch succeeds exactly when every tagged message encodes, and otherwise fails with a serialization error. On success each entry is the encoding of the tagged message at its position. |
| RedisChatMemory.EncodeBatchTags | src/main/java/com/liyuxiang/memory/SpringAiRedisChatMemory.java:48-52 | The messages up to and including the first that cannot be encoded are tagged with the id for their position. Messages after it are untouched. |
| RedisChatMemory.Add | src/main/java/com/liyuxiang/memory/SpringAiRedisChatMemory.java:42-59 | An empty batch changes nothing. Any encoding failure leaves the store unchanged and reports a serialization error. Otherwise the list gains the pushed entries, newest first, above the old entries. There is one entry per message, each the encoding of its tagged message. No other key changes. |
| RedisChatMemory.AddIds | src/main/java/com/liyuxiang/memory/SpringAiRedisChatMemory.java:51 | After a successful add, every message carries an id of 32 lowercase hex digits. Messages drawn with different UUIDs carry different ids. |
| RedisChatMemory.Convert | src/main/java/com/liyuxiang/memory/SpringAiRedisChatMemory.java:80-88 | A malformed entry fails with a deserialization error. The JSON literal null fails with a null dereference in `toMessage`. A record converts as `toMessage` of that record. Only a record can succeed. |
| RedisChatMemory.ConvertAll | src/main/java/com/liyuxiang/memory/SpringAiRedisChatMemory.java:79-88 | Converting all entries succeeds exactly when each entry converts, and then gives their conversions in order. Otherwise it reports the error of the first entry that fails. |
| RedisChatMemory.ReadBack | src/main/java/com/liyuxiang/memory/SpringAiRedisChatMemory.java:75-90 | The read-back succeeds exactly when each entry of the range converts. It then holds one message per entry, in reverse order, and otherwise reports the first failing entry's error. |
| RedisChatMemory.Get | src/main/java/com/liyuxiang/memory/SpringAiRedisChatMemory.java:71-91 | A missing conversation gives the empty list. `get` succeeds exactly when every entry of the head window converts. It then returns that window back to front (oldest first). Its errors are only deserialization, null dereference or an unsupported tool type. |
| RedisChatMemory.GetIsReadBack | src/main/java/com/liyuxiang/memory/SpringAiRedisChatMemory.java:73 | `get` reads back exactly the head window `0..lastN` of the list. |
| RedisChatMemory.GetSize | src/main/java/com/liyuxiang/memory/SpringAiRedisChatMemory.java:73-77 | For lastN ≥ 0, `get` returns min(lastN + 1, length) messages. For -1 it returns all of them, and for an empty list none. |
| RedisChatMemory.GetFailureIsFirst | src/main/java/com/liyuxiang/memory/SpringAiRedisChatMemory.java:79-86 | A failing `get` reports the error of the first entry in the window that fails, with all earlier entries converting. |
| RedisChatMemory.GetFailsAt | src/main/java/com/liyuxiang/memory/SpringAiRedisChatMemory.java:79-88 | When every entry of the window before position k reads back and the entry at k does not, `get` fails with that entry's error. |
| RedisChatMemory.GetRejectsMalformed | src/main/java/com/liyuxiang/memory/SpringAiRedisChatMemory.java:81-84 | When the first entry of the window that fails is malformed JSON, `get` fails with a deserialization error. |
| RedisChatMemory.GetRejectsNull | src/main/java/com/liyuxiang/memory/SpringAiRedisChatMemory.java:88 | When the first entry of the window that fails is the JSON literal null, `get` fails with a null dereference. |
| RedisChatMemory.GetRejectsToolRecord | src/main/java/com/liyuxiang/entity/ChatMsg.java:32 | If the window holds a tool-response record and every entry is a record, `get` fails with an unsupported-type error instead of skipping it. |
| RedisChatMemory.Clear | src/main/java/com/liyuxiang/memory/SpringAiRedisChatMemory.java:99-101 | `clear` removes the conversation and no other key. Clearing a missing conversation changes nothing. |
| RedisChatMemory.ClearEmpties | src/main/java/com/liyuxiang/memory/SpringAiRedisChatMemory.java:99-101 | After `clear`, `get` returns the empty list, and clearing again changes nothing. |
| RedisChatMemory.SurvivorsAppend | src/main/java/com/liyuxiang/memory/SpringAiRedisChatMemory.java:114-120 | Filtering out the entries with a given id distributes over concatenation. |
| RedisChatMemory.Scan | src/main/java/com/liyuxiang/memory/SpringAiRedisChatMemory.java:114-124 | The scan touches only the conversation's key and keeps the store free of empty lists. It fails only at the first entry it cannot inspect. A malformed entry gives a deserialization error, and a record without an id or with a null id gives a null dereference. |
| RedisChatMemory.ScanEffect | src/main/java/com/liyuxiang/memory/SpringAiRedisChatMemory.java:114-120 | LREM of each matching entry, as fetched, removes exactly the matching entries of the pending part of the list, up to the first entry the scan fails on. Everything else is left in order. |
| RedisChatMemory.ScanStatus | src/main/java/com/liyuxiang/memory/SpringAiRedisChatMemory.java:116-123 | The scan completes without an exception exactly when no entry of the snapshot makes it fail. |
| RedisChatMemory.ScanWithoutMatch | src/main/java/com/liyuxiang/memory/SpringAiRedisChatMemory.java:118-120 | When no snapshot entry carries the id, the scan leaves the store as it was, whether or not it fails. |
| RedisChatMemory.DeleteByMessageId | src/main/java/com/liyuxiang/memory/SpringAiRedisChatMemory.java:109-126 | Only the conversation's key changes. The call completes exactly when every entry is scannable. Otherwise the first entry that is not decides the error: a deserialization error for a malformed entry, and a null dereference for a record without an id or with a null id. Up to the first failing entry, the entries with the id are gone and the rest stay in order. Entries from the failing one on are untouched. If nothing matches, the store is unchanged. |
| RedisChatMemory.DeleteUniqueId | src/main/java/com/liyuxiang/memory/SpringAiRedisChatMemory.java:109-126 | When exactly one entry carries the id, deleting by that id removes exactly that entry and keeps the others in order. |
| ConversationHistory.StacksOneMore | src/main/java/com/liyuxiang/memory/SpringAiRedisChatMemory.java:58 | One more successful add, whose entries LPUSH puts above the list, keeps the list equal to every pushed entry, newest first, above the old list. It also keeps the entries encoding their messages and leaves other keys alone. |
| ConversationHistory.SeriesStacks | src/main/java/com/liyuxiang/memory/SpringAiRedisChatMemory.java:58 | After a successful series of adds, the list is every pushed entry, newest first, above the old list. Each entry encodes the message it was pushed for, and no other key changed. |
| ConversationHistory.ConvertStored | src/main/java/com/liyuxiang/memory/SpringAiRedisChatMemory.java:82-88 | Under the mapper's round trip, a stored message other than a tool response reads back as its reloaded form. |
| ConversationHistory.WindowReadsBack | src/main/java/com/liyuxiang/memory/SpringAiRedisChatMemory.java:89 | When a list reads back entry by entry as a sequence reversed, its head window reads back as the same window of that reversal, turned back to the original order. |
| ConversationHistory.StackWindowReadsBack | src/main/java/com/liyuxiang/memory/SpringAiRedisChatMemory.java:79-89 | Under the mapper's round trip, the newest w entries of a stack of encodings read back as the newest w messages, taken newest first and turned back to oldest first, each in its reloaded form. |
| ConversationHistory.GetOfStack | src/main/java/com/liyuxiang/memory/SpringAiRedisChatMemory.java:71-91 | `get` on a list of encodings stacked newest first returns `Recent` of the messages, which is the newest HeadWindow(n, lastN) of them, oldest first, as they read back. |
| ConversationHistory.StackReadsBackAs | src/main/java/com/liyuxiang/memory/SpringAiRedisChatMemory.java:79-89 | When each entry reads back as the message at its position, the newest w entries of the stack read back as the newest w messages, turned back to oldest first. |
| ConversationHistory.RecentIsNewest | src/main/java/com/liyuxiang/memory/SpringAiRedisChatMemory.java:73-89 | The expected result of `get` (`Recent`, the head window of the newest-first order turned back) is exactly the last HeadWindow(n, lastN) messages, in the order they were added, each in its reloaded form. |
| ConversationHistory.RecentOfAll | src/main/java/com/liyuxiang/memory/SpringAiRedisChatMemory.java:73-89 | With lastN = -1 the window covers the whole list, so `Recent` is every message in insertion order, reloaded. |
| ConversationHistory.Chronological | src/main/java/com/liyuxiang/memory/SpringAiRedisChatMemory.java:73-89 | After a series of adds to a new conversation, `get(c, lastN)` returns `Recent` of the added messages. By `RecentIsNewest` that is the newest HeadWindow(n, lastN) messages in the order they were added, each in its reloaded form. |
| ConversationHistory.ListAllInOrder | src/main/java/com/liyuxiang/memory/SpringAiRedisChatMemory.java:73-89 | After a series of adds to a new conversation, `get(c, -1)` returns every added message in insertion order. |

## Left out

- The Redis client, connections and timeouts are out: the store is a plain map from key to list, and a failing Redis call is not modelled.
- Jackson's JSON format is out: encoding and decoding are the `Codec` parameter, and `Faithful` states their round trip. Lemmas that rely on it require it.
- UUID generation is a parameter. Every UUID has to be distinct for the ids to be unique, and nothing can prove that; the model proves only that distinct UUIDs give distinct ids.
- Add: a null message list is not modelled. The model takes a sequence, so only the empty-list branch of line 43 is covered.
- Add: writing the id into a metadata map that cannot be changed would throw. The model assumes the map can be changed.
- RedisChatMemory.Add: messages are values, so object identity is not modelled. If a batch holds the same Java message object twice, line 51 writes both ids into the one shared metadata map, and both slots end up carrying the later id. The model's returned messages carry a different id per slot. The pushed entries are the same in both, because each is encoded right after its id is written.
- ChatMsgs.ToMessage: a record with a null message type makes the switch at line 28 throw. The model's record always has a type.
- DeleteByMessageId: a record whose metadata map is itself null throws at line 118. The model's records always have a map; a missing or null id is modelled as a null dereference.
- Concurrency is out: other clients writing between the snapshot fetch and the LREMs, and adds running at the same time. The model is single-threaded.
- Metadata keys that the framework adds on its own are out, and so are Jackson's mapping of metadata values to Java types (`MetaValue` approximates them) and the exception messages.
- The HTTP controller and the Spring configuration are not part of this model.
