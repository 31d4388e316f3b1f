/**
 * `Array.prototype.splice` as the drop handler uses it (ECMA-262, 2023
 * edition, section 23.1.3.31): `a.splice(i, 1)` removes one element and
 * `a.splice(i, 0, x)` inserts one, both on a copy that is changed in place.
 * A start position past the end is clamped to the length.
 */
module Splice {

  function Clamp(i: nat, len: nat): (k: nat)
    ensures k <= len && (i <= len ==> k == i)
    ensures len < i ==> k == len
  {
    if i < len then i else len
  }

  /** The contents after `s.splice(i, 1)`. */
  function SpliceRemove<T>(s: seq<T>, i: nat): (r: seq<T>)
    ensures |r| == if i < |s| then |s| - 1 else |s|
    ensures forall k :: 0 <= k < |r| ==> r[k] == if k < i then s[k] else s[k + 1]
  {
    if i < |s| then s[..i] + s[i + 1..] else s
  }

  /** The contents after `s.splice(i, 0, x)`. */
  function SpliceInsert<T>(s: seq<T>, i: nat, x: T): (r: seq<T>)
    ensures |r| == |s| + 1
    ensures r[Clamp(i, |s|)] == x
    ensures forall k :: 0 <= k < Clamp(i, |s|) ==> r[k] == s[k]
    ensures forall k :: Clamp(i, |s|) < k < |r| ==> r[k] == s[k - 1]
  {
    var k := Clamp(i, |s|);
    s[..k] + [x] + s[k..]
  }

  /** Remove at `from`, then insert `x` at `to` in the shortened list. */
  function Moved<T>(s: seq<T>, from: nat, to: nat, x: T): (r: seq<T>)
    ensures |r| == if from < |s| then |s| else |s| + 1
    ensures x in r
  {
    SpliceInsert(SpliceRemove(s, from), to, x)
  }

  /** `splice(start, 1)` on the first `len` slots of `a`, shifting the tail left. */
  method RemoveAt<T>(a: array<T>, len: nat, start: nat) returns (newLen: nat)
    requires len <= a.Length
    modifies a
    ensures newLen <= len
    ensures a[..newLen] == SpliceRemove(old(a[..len]), start)
  {
    if start >= len {
      return len;
    }
    var i := start;
    while i + 1 < len
      invariant start <= i < len
      invariant forall k :: 0 <= k < start ==> a[k] == old(a[k])
      invariant forall k :: start <= k < i ==> a[k] == old(a[k + 1])
      invariant forall k :: i <= k < len ==> a[k] == old(a[k])
    {
      a[i] := a[i + 1];
      i := i + 1;
    }
    newLen := len - 1;
    ghost var was := old(a[..len]);
    ghost var expected := was[..start] + was[start + 1..];
    forall k | 0 <= k < newLen ensures a[k] == expected[k] {
      if k >= start {
        assert expected[k] == was[k + 1];
      }
    }
    assert a[..newLen] == expected;
  }

  /** `splice(start, 0, x)` on the first `len` slots of `a`, shifting the tail right. */
  method InsertAt<T>(a: array<T>, len: nat, start: nat, x: T) returns (newLen: nat)
    requires len < a.Length
    modifies a
    ensures newLen == len + 1
    ensures a[..newLen] == SpliceInsert(old(a[..len]), start, x)
  {
    var k := Clamp(start, len);
    var i := len;
    while i > k
      invariant k <= i <= len
      invariant forall j :: 0 <= j < i ==> a[j] == old(a[j])
      invariant forall j :: i < j <= len ==> a[j] == old(a[j - 1])
    {
      a[i] := a[i - 1];
      i := i - 1;
    }
    a[k] := x;
    newLen := len + 1;
    ghost var was := old(a[..len]);
    ghost var expected := was[..k] + [x] + was[k..];
    forall j | 0 <= j < newLen ensures a[j] == expected[j] {
      if j > k {
        assert expected[j] == was[j - 1];
      }
    }
    assert a[..newLen] == expected;
  }

  /**
   * Copies `s`, removes the element at `from` and inserts `x` at `to`, the
   * two `splice` calls of a drop.
   */
  method Move<T>(s: seq<T>, from: nat, to: nat, x: T) returns (r: seq<T>)
    ensures r == Moved(s, from, to, x)
  {
    var a := new T[|s| + 1](i requires 0 <= i <= |s| => if i < |s| then s[i] else x);
    assert a[..|s|] == s;
    var len := RemoveAt(a, |s|, from);
    len := InsertAt(a, len, to, x);
    r := a[..len];
  }

  /** Removing an existing position takes exactly that element out of the multiset. */
  lemma SpliceRemoveMultiset<T>(s: seq<T>, i: nat)
    requires i < |s|
    ensures |SpliceRemove(s, i)| == |s| - 1
    ensures multiset(SpliceRemove(s, i)) == multiset(s) - multiset{s[i]}
  {
    assert s == s[..i] + [s[i]] + s[i + 1..];
  }

  /**
   * Moving an entry that exists keeps the length and the multiset of entries,
   * puts the moved entry at `to`, and keeps every other entry in its relative
   * order: deleting position `to` afterwards gives what deleting `from` gave.
   */
  lemma MovedInRange<T>(s: seq<T>, from: nat, to: nat)
    requires from < |s| && to < |s|
    ensures |Moved(s, from, to, s[from])| == |s|
    ensures multiset(Moved(s, from, to, s[from])) == multiset(s)
    ensures Moved(s, from, to, s[from])[to] == s[from]
    ensures SpliceRemove(Moved(s, from, to, s[from]), to) == SpliceRemove(s, from)
  {
    var t := SpliceRemove(s, from);
    var r := Moved(s, from, to, s[from]);
    assert s == s[..from] + [s[from]] + s[from + 1..];
    assert r == t[..to] + [s[from]] + t[to..];
    assert t == t[..to] + t[to..];
    assert r[..to] + r[to + 1..] == t;
    calc {
      multiset(r);
      multiset(t[..to]) + multiset{s[from]} + multiset(t[to..]);
      multiset(t) + multiset{s[from]};
      multiset(s[..from]) + multiset(s[from + 1..]) + multiset{s[from]};
      multiset(s);
    }
  }

  /**
   * What a move can produce for any source position: one element fewer
   * removed when `from` is past the end, and nothing but old elements and `x`.
   */
  lemma MovedElements<T>(s: seq<T>, from: nat, to: nat, x: T)
    ensures |Moved(s, from, to, x)| == if from < |s| then |s| else |s| + 1
    ensures forall y :: y in Moved(s, from, to, x) ==> y in s || y == x
  {
  }

  /** Dragging the moved entry back to where it was restores the list. */
  lemma MoveUndo<T>(s: seq<T>, from: nat, to: nat)
    requires from < |s| && to < |s|
    ensures Moved(Moved(s, from, to, s[from]), to, from, s[from]) == s
  {
    var t := SpliceRemove(s, from);
    var r := Moved(s, from, to, s[from]);
    MovedInRange(s, from, to);
    assert SpliceRemove(r, to) == t;
    assert t[..from] == s[..from] && t[from..] == s[from + 1..];
    assert Moved(r, to, from, s[from]) == t[..from] + [s[from]] + t[from..];
    assert s == s[..from] + [s[from]] + s[from + 1..];
  }

  /** Dragging the last of three entries onto the first. */
  lemma MoveLastToFront<T>(x: T, y: T, z: T)
    ensures Moved([x, y, z], 2, 0, z) == [z, x, y]
  {
    assert SpliceRemove([x, y, z], 2) == [x, y];
  }
}
