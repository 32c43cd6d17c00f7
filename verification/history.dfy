/**
 * A conversation built by a series of `add` calls, and what `get` reads back from it:
 * LPUSH puts each batch at the head back to front, `get` reverses its range again, so the
 * messages come back oldest first, in the order they were added.
 */
module ConversationHistory {
  import opened Wrappers
  import opened Seqs
  import opened RedisList
  import opened Messages
  import opened ChatMsgs
  import opened RedisChatMemory

  /** One UUID text per message of every batch. */
  ghost predicate Fits(batches: seq<seq<Message>>, uuids: seq<seq<string>>) {
    |uuids| == |batches| && forall i :: 0 <= i < |batches| ==> |uuids[i]| == |batches[i]|
  }

  /** The store after a series of adds, every message added (as tagged), and every entry pushed. */
  datatype Series = Series(store: Store, messages: seq<Message>, entries: seq<string>)

  /** The batches and their UUID texts without the last batch. */
  lemma FitsPrefix(batches: seq<seq<Message>>, uuids: seq<seq<string>>)
    requires Fits(batches, uuids) && batches != []
    ensures Fits(batches[..|batches| - 1], uuids[..|batches| - 1])
  {
    var n := |batches| - 1;
    forall i | 0 <= i < n ensures |uuids[..n][i]| == |batches[..n][i]| {
      assert batches[..n][i] == batches[i] && uuids[..n][i] == uuids[i];
    }
  }

  /** `add` of each batch in turn; None as soon as one of them throws. */
  function AddSeries(codec: Codec, s: Store, c: string, batches: seq<seq<Message>>, uuids: seq<seq<string>>): (r: Option<Series>)
    requires Fits(batches, uuids)
    decreases |batches|
  {
    if batches == [] then Some(Series(s, [], []))
    else
      var n := |batches| - 1;
      FitsPrefix(batches, uuids);
      match AddSeries(codec, s, c, batches[..n], uuids[..n])
      case None => None
      case Some(before) =>
        var added := Add(codec, before.store, c, batches[n], uuids[n]);
        match added.pushed
        case Failure(_) => None
        case Success(entries) => Some(Series(added.store, before.messages + added.messages, before.entries + entries))
  }

  /** Two runs of messages each encoded entry by entry, one after the other. */
  lemma EncodesAppend(codec: Codec, m1: seq<Message>, e1: seq<string>, m2: seq<Message>, e2: seq<string>)
    requires |m1| == |e1| && |m2| == |e2|
    requires forall i :: 0 <= i < |m1| ==> codec.encode(m1[i]) == Some(e1[i])
    requires forall i :: 0 <= i < |m2| ==> codec.encode(m2[i]) == Some(e2[i])
    ensures forall i :: 0 <= i < |m1| + |m2| ==> codec.encode((m1 + m2)[i]) == Some((e1 + e2)[i])
  {
    forall i | 0 <= i < |m1| + |m2| ensures codec.encode((m1 + m2)[i]) == Some((e1 + e2)[i]) {
      if i >= |m1| {
        var j := i - |m1|;
        assert (m1 + m2)[i] == m2[j] && (e1 + e2)[i] == e2[j];
      }
    }
  }

  /**
   * After a successful series of adds the conversation's list is every pushed entry, newest
   * first, on top of what was there; each entry is the encoding of the message it was
   * pushed for, and no other key changed.
   */
  lemma {:induction false} SeriesStacks(codec: Codec, s: Store, c: string, batches: seq<seq<Message>>, uuids: seq<seq<string>>, x: Series)
    requires Fits(batches, uuids)
    requires AddSeries(codec, s, c, batches, uuids) == Some(x)
    ensures
      && |x.entries| == |x.messages|
      && (forall i :: 0 <= i < |x.messages| ==> codec.encode(x.messages[i]) == Some(x.entries[i]))
      && ListAt(x.store, c) == Reverse(x.entries) + ListAt(s, c)
      && x.store - {c} == s - {c}
    decreases |batches|
  {
    if batches != [] {
      var n := |batches| - 1;
      FitsPrefix(batches, uuids);
      var before := AddSeries(codec, s, c, batches[..n], uuids[..n]).value;
      SeriesStacks(codec, s, c, batches[..n], uuids[..n], before);
      var added := Add(codec, before.store, c, batches[n], uuids[n]);
      StacksOneMore(codec, s, c, before, added, x);
    }
  }

  /** One more successful add keeps the stacking that `SeriesStacks` states. */
  lemma StacksOneMore(codec: Codec, s: Store, c: string, before: Series, added: AddOutcome, x: Series)
    requires |before.entries| == |before.messages|
    requires forall i :: 0 <= i < |before.messages| ==> codec.encode(before.messages[i]) == Some(before.entries[i])
    requires ListAt(before.store, c) == Reverse(before.entries) + ListAt(s, c)
    requires before.store - {c} == s - {c}
    requires added.pushed.Success? && |added.pushed.value| == |added.messages|
    requires forall i :: 0 <= i < |added.messages| ==> codec.encode(added.messages[i]) == Some(added.pushed.value[i])
    requires ListAt(added.store, c) == Reverse(added.pushed.value) + ListAt(before.store, c)
    requires added.store - {c} == before.store - {c}
    requires x == Series(added.store, before.messages + added.messages, before.entries + added.pushed.value)
    ensures
      && |x.entries| == |x.messages|
      && (forall i :: 0 <= i < |x.messages| ==> codec.encode(x.messages[i]) == Some(x.entries[i]))
      && ListAt(x.store, c) == Reverse(x.entries) + ListAt(s, c)
      && x.store - {c} == s - {c}
  {
    var entries := added.pushed.value;
    EncodesAppend(codec, before.messages, before.entries, added.messages, entries);
    ReverseAppend(before.entries, entries);
    assert ListAt(x.store, c) == Reverse(entries) + (Reverse(before.entries) + ListAt(s, c));
  }

  /** A stored entry of a message other than a tool response reads back as the reloaded message. */
  lemma ConvertStored(codec: Codec, m: Message, entry: string)
    requires Faithful(codec)
    requires codec.encode(m) == Some(entry)
    requires m.Kind() != Tool
    ensures Convert(codec, entry) == Success(Reloaded(m))
  {
    assert codec.decode(entry) == Record(Project(m));
  }

  /** Converting entries that each convert gives the converted entries, in order. */
  lemma ConvertAllOfReadable(codec: Codec, window: seq<string>, expected: seq<Message>)
    requires |expected| == |window|
    requires forall i :: 0 <= i < |window| ==> Convert(codec, window[i]) == Success(expected[i])
    ensures ConvertAll(codec, window) == Success(expected)
  {
    var r := ConvertAll(codec, window);
    assert r.Success?;
    forall i | 0 <= i < |window| ensures r.value[i] == expected[i] {
      assert r.value[i] == Convert(codec, window[i]).value;
    }
    assert r.value == expected;
  }

  /** Reading back a range whose every entry converts gives the converted entries back to front. */
  lemma ReadBackOfReadable(codec: Codec, window: seq<string>, expected: seq<Message>)
    requires |expected| == |window|
    requires forall i :: 0 <= i < |window| ==> Convert(codec, window[i]) == Success(expected[i])
    ensures ReadBack(codec, window) == Success(Reverse(expected))
  {
    ConvertAllOfReadable(codec, window, expected);
  }

  /** Each message as it reads back. */
  function ReloadAll(ms: seq<Message>): (r: seq<Message>)
    requires forall i :: 0 <= i < |ms| ==> ms[i].Kind() != Tool
    ensures |r| == |ms|
    ensures forall i {:trigger r[i]} :: 0 <= i < |r| ==> r[i] == Reloaded(ms[i])
  {
    if ms == [] then [] else ReloadAll(ms[..|ms| - 1]) + [Reloaded(ms[|ms| - 1])]
  }

  /**
   * The newest HeadWindow(n, lastN) of n messages, oldest first, each as it reads back:
   * what `get` should return for a conversation holding them. It is written as the head
   * window of the newest-first order, turned back; `RecentIsNewest` shows that this is the
   * last HeadWindow(n, lastN) messages in the order they were added.
   */
  function Recent(ms: seq<Message>, lastN: int): (r: seq<Message>)
    requires forall i :: 0 <= i < |ms| ==> ms[i].Kind() != Tool
  {
    Reverse(Reverse(ReloadAll(ms))[..HeadWindow(|ms|, lastN)])
  }

  /** The recent messages are the newest HeadWindow(n, lastN) messages, in the order they were added. */
  lemma RecentIsNewest(ms: seq<Message>, lastN: int)
    requires forall i :: 0 <= i < |ms| ==> ms[i].Kind() != Tool
    ensures Recent(ms, lastN) == ReloadAll(ms)[|ms| - HeadWindow(|ms|, lastN)..]
  {
    var all := ReloadAll(ms);
    var w := HeadWindow(|ms|, lastN);
    assert |all| == |ms|;
    ReverseHead(all, w);
  }

  /** With lastN = -1 the recent messages are all of them, in the order they were added. */
  lemma RecentOfAll(ms: seq<Message>)
    requires forall i :: 0 <= i < |ms| ==> ms[i].Kind() != Tool
    ensures Recent(ms, -1) == ReloadAll(ms)
  {
    var all := ReloadAll(ms);
    assert Reverse(all)[..|ms|] == Reverse(all);
    ReverseReverse(all);
  }

  /** Each encoding of a series of messages reads back as the message it encodes. */
  lemma EntriesReadBack(codec: Codec, messages: seq<Message>, entries: seq<string>)
    requires Faithful(codec)
    requires |entries| == |messages|
    requires forall i :: 0 <= i < |messages| ==> codec.encode(messages[i]) == Some(entries[i])
    requires forall i :: 0 <= i < |messages| ==> messages[i].Kind() != Tool
    ensures forall i {:trigger entries[i]} :: 0 <= i < |entries| ==> Convert(codec, entries[i]) == Success(ReloadAll(messages)[i])
  {
    forall i | 0 <= i < |entries| ensures Convert(codec, entries[i]) == Success(ReloadAll(messages)[i]) {
      ConvertStored(codec, messages[i], entries[i]);
    }
  }

  /** Reversing a list of entries that read back reverses what they read back as. */
  lemma ReversedReadBack(codec: Codec, entries: seq<string>, all: seq<Message>)
    requires |entries| == |all|
    requires forall i {:trigger entries[i]} :: 0 <= i < |entries| ==> Convert(codec, entries[i]) == Success(all[i])
    ensures forall i {:trigger Reverse(entries)[i]} :: 0 <= i < |entries| ==>
      Convert(codec, Reverse(entries)[i]) == Success(Reverse(all)[i])
  {
    var n := |entries|;
    forall i | 0 <= i < n ensures Convert(codec, Reverse(entries)[i]) == Success(Reverse(all)[i]) {
      assert Reverse(entries)[i] == entries[n - 1 - i];
      assert Reverse(all)[i] == all[n - 1 - i];
    }
  }

  /**
   * The head window of a list that reads back as a reversed sequence reads back as the same
   * window of that reversed sequence, turned back.
   */
  lemma WindowReadsBack(codec: Codec, l: seq<string>, all: seq<Message>, w: nat)
    requires |l| == |all| && w <= |l|
    requires forall i {:trigger l[i]} :: 0 <= i < |l| ==> Convert(codec, l[i]) == Success(Reverse(all)[i])
    ensures ReadBack(codec, l[..w]) == Success(Reverse(Reverse(all)[..w]))
  {
    var expected := Reverse(all)[..w];
    forall i | 0 <= i < w ensures Convert(codec, l[..w][i]) == Success(expected[i]) {
      assert l[..w][i] == l[i];
    }
    ReadBackOfReadable(codec, l[..w], expected);
  }

  /**
   * `get` on a list that holds the encodings of some messages, newest first, returns the
   * newest HeadWindow(n, lastN) of them oldest first, each as it reads back.
   */
  lemma GetOfStack(codec: Codec, st: Store, c: string, messages: seq<Message>, entries: seq<string>, lastN: int)
    requires Faithful(codec)
    requires |entries| == |messages|
    requires forall i :: 0 <= i < |messages| ==> codec.encode(messages[i]) == Some(entries[i])
    requires forall i :: 0 <= i < |messages| ==> messages[i].Kind() != Tool
    requires ListAt(st, c) == Reverse(entries)
    ensures Get(codec, st, c, lastN) == Success(Recent(messages, lastN))
  {
    var w := HeadWindow(|messages|, lastN);
    assert |ListAt(st, c)| == |messages|;
    GetIsReadBack(codec, st, c, lastN);
    assert Get(codec, st, c, lastN) == ReadBack(codec, Reverse(entries)[..w]);
    StackWindowReadsBack(codec, messages, entries, w);
  }

  /** The newest w entries of a stack of encodings read back as the newest w messages, oldest first. */
  lemma StackWindowReadsBack(codec: Codec, messages: seq<Message>, entries: seq<string>, w: nat)
    requires Faithful(codec)
    requires |entries| == |messages| && w <= |messages|
    requires forall i :: 0 <= i < |messages| ==> codec.encode(messages[i]) == Some(entries[i])
    requires forall i :: 0 <= i < |messages| ==> messages[i].Kind() != Tool
    ensures ReadBack(codec, Reverse(entries)[..w]) == Success(Reverse(Reverse(ReloadAll(messages))[..w]))
  {
    EntriesReadBack(codec, messages, entries);
    StackReadsBackAs(codec, entries, ReloadAll(messages), w);
  }

  /**
   * When each entry reads back as the message at its position, the newest w of them, pushed
   * newest first, read back as the last w messages in order.
   */
  lemma StackReadsBackAs(codec: Codec, entries: seq<string>, all: seq<Message>, w: nat)
    requires |entries| == |all| && w <= |all|
    requires forall i {:trigger entries[i]} :: 0 <= i < |entries| ==> Convert(codec, entries[i]) == Success(all[i])
    ensures ReadBack(codec, Reverse(entries)[..w]) == Success(Reverse(Reverse(all)[..w]))
  {
    ReversedReadBack(codec, entries, all);
    WindowReadsBack(codec, Reverse(entries), all, w);
  }

  /**
   * Chronological round trip: after a series of adds to a conversation that did not exist,
   * get(conversationId, lastN) returns the newest HeadWindow(n, lastN) messages in the
   * order they were added, each as it reads back.
   */
  lemma Chronological(codec: Codec, s: Store, c: string, batches: seq<seq<Message>>, uuids: seq<seq<string>>, x: Series, lastN: int)
    requires Fits(batches, uuids)
    requires Faithful(codec)
    requires c !in s
    requires AddSeries(codec, s, c, batches, uuids) == Some(x)
    requires forall i :: 0 <= i < |x.messages| ==> x.messages[i].Kind() != Tool
    ensures Get(codec, x.store, c, lastN) == Success(Recent(x.messages, lastN))
  {
    SeriesStacks(codec, s, c, batches, uuids, x);
    assert ListAt(x.store, c) == Reverse(x.entries) + [] == Reverse(x.entries);
    GetOfStack(codec, x.store, c, x.messages, x.entries, lastN);
  }

  /** In particular get(conversationId, -1) returns every added message, oldest first. */
  lemma ListAllInOrder(codec: Codec, s: Store, c: string, batches: seq<seq<Message>>, uuids: seq<seq<string>>, x: Series)
    requires Fits(batches, uuids)
    requires Faithful(codec)
    requires c !in s
    requires AddSeries(codec, s, c, batches, uuids) == Some(x)
    requires forall i :: 0 <= i < |x.messages| ==> x.messages[i].Kind() != Tool
    ensures var r := Get(codec, x.store, c, -1);
      && r.Success?
      && |r.value| == |x.messages|
      && forall i :: 0 <= i < |x.messages| ==> r.value[i] == Reloaded(x.messages[i])
  {
    Chronological(codec, s, c, batches, uuids, x, -1);
    RecentOfAll(x.messages);
  }
}
