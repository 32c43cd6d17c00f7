/** Generic sequence helpers: reversal and removal of the first occurrence. */
module Seqs {

  /** The elements of `s` back to front. */
  function Reverse<T>(s: seq<T>): (r: seq<T>)
    ensures |r| == |s|
    ensures forall i {:trigger r[i]} :: 0 <= i < |s| ==> r[i] == s[|s| - 1 - i]
  {
    if s == [] then [] else [s[|s| - 1]] + Reverse(s[..|s| - 1])
  }

  /** Reversing a concatenation reverses the order of the parts. */
  lemma ReverseAppend<T>(a: seq<T>, b: seq<T>)
    ensures Reverse(a + b) == Reverse(b) + Reverse(a)
  {
    var l, r := Reverse(a + b), Reverse(b) + Reverse(a);
    assert |l| == |r|;
    forall i | 0 <= i < |l|
      ensures l[i] == r[i]
    {
      if i < |b| {
        assert l[i] == (a + b)[|a| + |b| - 1 - i] == b[|b| - 1 - i];
      } else {
        assert l[i] == (a + b)[|a| + |b| - 1 - i] == a[|a| - 1 - (i - |b|)];
      }
    }
  }

  /** Reversal is its own inverse. */
  lemma ReverseReverse<T>(s: seq<T>)
    ensures Reverse(Reverse(s)) == s
  {
  }

  /** The first w elements of a reversed sequence, reversed again, are the last w of the original. */
  lemma ReverseHead<T>(s: seq<T>, w: nat)
    requires w <= |s|
    ensures Reverse(Reverse(s)[..w]) == s[|s| - w..]
  {
    var k := |s| - w;
    assert s == s[..k] + s[k..];
    ReverseAppend(s[..k], s[k..]);
    assert Reverse(s)[..w] == Reverse(s[k..]);
    ReverseReverse(s[k..]);
  }

  /** The position of the first occurrence of `v` in `s`. */
  function FirstIndex<T(==)>(s: seq<T>, v: T): (i: nat)
    requires v in s
    ensures i < |s| && s[i] == v
    ensures forall j :: 0 <= j < i ==> s[j] != v
  {
    if s[0] == v then 0 else 1 + FirstIndex(s[1..], v)
  }

  /** `s` without its first occurrence of `v`; `s` itself when `v` does not occur. */
  function RemoveFirst<T(==)>(s: seq<T>, v: T): (r: seq<T>)
    ensures v !in s ==> r == s
    ensures v in s ==> r == s[..FirstIndex(s, v)] + s[FirstIndex(s, v) + 1..]
  {
    if s == [] then []
    else if s[0] == v then s[1..]
    else
      var rest := RemoveFirst(s[1..], v);
      assert v in s ==> v in s[1..] && s[..FirstIndex(s, v)] == [s[0]] + s[1..][..FirstIndex(s[1..], v)];
      [s[0]] + rest
  }

  /** Removing a value that first occurs right after a prefix that lacks it cuts exactly that element. */
  lemma RemoveFirstAfter<T>(a: seq<T>, b: seq<T>, v: T)
    requires v !in a && b != [] && b[0] == v
    ensures RemoveFirst(a + b, v) == a + b[1..]
  {
    var s := a + b;
    assert s[|a|] == v;
    assert forall j :: 0 <= j < |a| ==> s[j] == a[j] != v;
    var i := FirstIndex(s, v);
    assert i == |a|;
    assert s[..i] == a;
    assert s[i + 1..] == b[1..];
  }
}
