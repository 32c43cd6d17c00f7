/**
 * The part of Redis the chat memory relies on: a keyspace of string lists and the four
 * list commands LPUSH, LRANGE, DEL and LREM. Redis never keeps an empty list under a key:
 * a list whose last element is removed disappears together with its key.
 */
module RedisList {
  import opened Seqs

  /** Key -> list of string values, head first. */
  type Store = map<string, seq<string>>

  /** The list stored at `key`; a missing key reads as the empty list. */
  function ListAt(s: Store, key: string): seq<string> {
    if key in s then s[key] else []
  }

  /** Redis keeps no empty lists. */
  ghost predicate WellFormed(s: Store) {
    forall k :: k in s ==> s[k] != []
  }

  /** LPUSH key value: one value inserted at the head, creating the key if absent. */
  function LPush(s: Store, key: string, value: string): (r: Store)
    ensures key in r && r[key] == [value] + ListAt(s, key)
    ensures r - {key} == s - {key}
  {
    s[key := [value] + ListAt(s, key)]
  }

  /**
   * LPUSH key v0 v1 ... vn: the values are inserted at the head one after the other, left
   * to right, so the last value ends up first. Redis rejects the command without values.
   */
  function LPushAll(s: Store, key: string, values: seq<string>): (r: Store)
    requires values != []
    ensures key in r && r[key] == Reverse(values) + ListAt(s, key)
    ensures r - {key} == s - {key}
    ensures WellFormed(s) ==> WellFormed(r)
    decreases |values|
  {
    var pushed := LPush(s, key, values[0]);
    if |values| == 1 then pushed
    else
      assert Reverse(values) == Reverse(values[1..]) + [values[0]];
      LPushAll(pushed, key, values[1..])
  }

  /**
   * LRANGE key start stop: the elements between two inclusive indices; a negative index
   * counts from the tail (-1 is the last element), a start before the head is clamped to 0,
   * a stop past the tail is clamped to the last element, and an empty or inverted range
   * yields no elements.
   */
  function LRange(s: Store, key: string, start: int, stop: int): (r: seq<string>)
    ensures key !in s ==> r == []
    ensures 0 <= start <= stop < |ListAt(s, key)| ==> r == ListAt(s, key)[start..stop + 1]
    ensures 0 <= start < |ListAt(s, key)| <= stop ==> r == ListAt(s, key)[start..]
    ensures start == 0 && stop == -1 ==> r == ListAt(s, key)
    ensures start == 0 ==> r == ListAt(s, key)[..HeadWindow(|ListAt(s, key)|, stop)]
  {
    var l := ListAt(s, key);
    var n := |l|;
    var first := if start < 0 then n + start else start;
    var last := if stop < 0 then n + stop else stop;
    var lo := if first < 0 then 0 else first;
    if lo > last || lo >= n then []
    else
      var hi := if last >= n then n - 1 else last;
      l[lo..hi + 1]
  }

  /**
   * How many elements LRANGE key 0 stop returns from a list of length n: stop is an
   * inclusive end index, so a non-negative stop yields stop + 1 elements (at most n), and a
   * negative stop drops -stop - 1 elements from the tail.
   */
  function HeadWindow(n: nat, stop: int): (w: nat)
    ensures w <= n
    ensures stop >= 0 ==> w == if stop + 1 < n then stop + 1 else n
    ensures stop == -1 ==> w == n
  {
    if stop >= 0 then (if stop + 1 < n then stop + 1 else n)
    else if n + stop + 1 > 0 then n + stop + 1
    else 0
  }

  /** DEL key: the key and its list are gone; deleting a missing key changes nothing. */
  function Del(s: Store, key: string): (r: Store)
    ensures key !in r && ListAt(r, key) == []
    ensures r - {key} == s - {key}
    ensures key !in s ==> r == s
    ensures WellFormed(s) ==> WellFormed(r)
  {
    s - {key}
  }

  /**
   * LREM key 1 value: the first occurrence of `value`, counted from the head, is removed;
   * a list left empty is deleted together with its key.
   */
  function LRem(s: Store, key: string, value: string): (r: Store)
    ensures ListAt(r, key) == RemoveFirst(ListAt(s, key), value)
    ensures r - {key} == s - {key}
    ensures WellFormed(s) && value !in ListAt(s, key) ==> r == s
    ensures WellFormed(s) ==> WellFormed(r)
  {
    if key !in s then s
    else
      var remaining := RemoveFirst(s[key], value);
      if remaining == [] then s - {key} else s[key := remaining]
  }
}
