/**
 * A stable sort by a string key under an abstract comparator.
 *
 * `leq(a, b)` stands for `a.localeCompare(b) <= 0`. The collation itself is
 * not modelled: it is any total preorder on names. ECMA-262 (2023 edition,
 * section 23.1.3.30) requires `Array.prototype.sort` to produce a permutation
 * that is ordered by a consistent comparator and stable; `Sort` is insertion
 * sort, and `SortUnique` shows that every result meeting that requirement is
 * the one `Sort` computes.
 */
module StableSort {

  /** Totality and transitivity: what a consistent comparator gives. */
  ghost predicate TotalPreorder(leq: (string, string) -> bool) {
    && (forall a, b :: leq(a, b) || leq(b, a))
    && (forall a, b, c :: leq(a, b) && leq(b, c) ==> leq(a, c))
  }

  /** The comparator reports the two names as equal (localeCompare gives 0). */
  predicate Equiv(leq: (string, string) -> bool, a: string, b: string) {
    leq(a, b) && leq(b, a)
  }

  predicate Sorted<T>(s: seq<T>, key: T -> string, leq: (string, string) -> bool) {
    forall i, j :: 0 <= i < j < |s| ==> leq(key(s[i]), key(s[j]))
  }

  /** Places `x` before the first element it is not greater than. */
  function Insert<T>(x: T, s: seq<T>, key: T -> string, leq: (string, string) -> bool): (r: seq<T>)
    ensures |r| == |s| + 1
  {
    if s == [] then [x]
    else if leq(key(x), key(s[0])) then [x] + s
    else [s[0]] + Insert(x, s[1..], key, leq)
  }

  function Sort<T>(s: seq<T>, key: T -> string, leq: (string, string) -> bool): (r: seq<T>)
    ensures |r| == |s|
  {
    if s == [] then [] else Insert(s[0], Sort(s[1..], key, leq), key, leq)
  }

  /** The elements whose key the comparator reports equal to `n`, in order. */
  function Peers<T>(s: seq<T>, n: string, key: T -> string, leq: (string, string) -> bool): seq<T> {
    if s == [] then []
    else (if Equiv(leq, key(s[0]), n) then [s[0]] else []) + Peers(s[1..], n, key, leq)
  }

  lemma {:induction false} InsertPermutation<T>(x: T, s: seq<T>, key: T -> string, leq: (string, string) -> bool)
    ensures multiset(Insert(x, s, key, leq)) == multiset(s) + multiset{x}
  {
    if s != [] && !leq(key(x), key(s[0])) {
      InsertPermutation(x, s[1..], key, leq);
      assert s == [s[0]] + s[1..];
    }
  }

  /** Sorting only reorders: the result is a permutation of the input. */
  lemma {:induction false} SortPermutation<T>(s: seq<T>, key: T -> string, leq: (string, string) -> bool)
    ensures multiset(Sort(s, key, leq)) == multiset(s)
    ensures |Sort(s, key, leq)| == |s|
  {
    if s != [] {
      SortPermutation(s[1..], key, leq);
      InsertPermutation(s[0], Sort(s[1..], key, leq), key, leq);
      assert s == [s[0]] + s[1..];
    }
    assert |multiset(Sort(s, key, leq))| == |multiset(s)|;
  }

  lemma {:induction false} InsertSorted<T>(x: T, s: seq<T>, key: T -> string, leq: (string, string) -> bool)
    requires TotalPreorder(leq)
    requires Sorted(s, key, leq)
    ensures Sorted(Insert(x, s, key, leq), key, leq)
  {
    if s == [] {
    } else if leq(key(x), key(s[0])) {
      ConsSorted(x, s, key, leq);
    } else {
      var t := Insert(x, s[1..], key, leq);
      InsertSorted(x, s[1..], key, leq);
      InsertPermutation(x, s[1..], key, leq);
      forall j | 0 <= j < |t| ensures leq(key(s[0]), key(t[j])) {
        var y := t[j];
        assert y in multiset(t);
        if y == x {
        } else {
          assert y in multiset(s[1..]);
          var k :| 0 <= k < |s[1..]| && s[1..][k] == y;
          assert s[k + 1] == y;
        }
      }
      ConsSorted(s[0], t, key, leq);
    }
  }

  /** An element not greater than the head of an ordered list extends it. */
  lemma ConsSorted<T>(x: T, s: seq<T>, key: T -> string, leq: (string, string) -> bool)
    requires Sorted(s, key, leq)
    requires forall j :: 0 <= j < |s| ==> leq(key(x), key(s[j]))
    ensures Sorted([x] + s, key, leq)
  {
    var r := [x] + s;
    forall i, j | 0 <= i < j < |r| ensures leq(key(r[i]), key(r[j])) {
      if i == 0 {
        assert r[j] == s[j - 1];
      }
    }
  }

  /** The result is ordered by the comparator. */
  lemma {:induction false} SortSorted<T>(s: seq<T>, key: T -> string, leq: (string, string) -> bool)
    requires TotalPreorder(leq)
    ensures Sorted(Sort(s, key, leq), key, leq)
  {
    if s != [] {
      SortSorted(s[1..], key, leq);
      InsertSorted(s[0], Sort(s[1..], key, leq), key, leq);
    }
  }

  lemma {:induction false} InsertPeers<T>(x: T, s: seq<T>, n: string, key: T -> string, leq: (string, string) -> bool)
    requires TotalPreorder(leq)
    ensures Peers(Insert(x, s, key, leq), n, key, leq)
         == (if Equiv(leq, key(x), n) then [x] else []) + Peers(s, n, key, leq)
  {
    var hx := if Equiv(leq, key(x), n) then [x] else [];
    if s == [] {
    } else if leq(key(x), key(s[0])) {
      assert ([x] + s)[1..] == s;
    } else {
      var t := Insert(x, s[1..], key, leq);
      var hs := if Equiv(leq, key(s[0]), n) then [s[0]] else [];
      InsertPeers(x, s[1..], n, key, leq);
      assert ([s[0]] + t)[1..] == t;
      calc {
        Peers(Insert(x, s, key, leq), n, key, leq);
        Peers([s[0]] + t, n, key, leq);
        hs + Peers(t, n, key, leq);
        hs + (hx + Peers(s[1..], n, key, leq));
        { var kx, k0 := key(x), key(s[0]);
          assert leq(kx, n) && leq(n, k0) ==> leq(kx, k0);
          assert hx == [] || hs == []; }
        hx + (hs + Peers(s[1..], n, key, leq));
      }
    }
  }

  /** Stability: among names the comparator reports equal, the input order is kept. */
  lemma {:induction false} SortStable<T>(s: seq<T>, n: string, key: T -> string, leq: (string, string) -> bool)
    requires TotalPreorder(leq)
    ensures Peers(Sort(s, key, leq), n, key, leq) == Peers(s, n, key, leq)
  {
    if s != [] {
      SortStable(s[1..], n, key, leq);
      InsertPeers(s[0], Sort(s[1..], key, leq), n, key, leq);
    }
  }

  /** Sorting an already ordered list changes nothing. */
  lemma {:induction false} SortOfSorted<T>(s: seq<T>, key: T -> string, leq: (string, string) -> bool)
    requires Sorted(s, key, leq)
    ensures Sort(s, key, leq) == s
  {
    if s != [] {
      SortOfSorted(s[1..], key, leq);
      if |s| > 1 {
        assert leq(key(s[0]), key(s[1]));
      }
      assert [s[0]] + s[1..] == s;
    }
  }

  /** Sorting twice equals sorting once. */
  lemma SortIdempotent<T>(s: seq<T>, key: T -> string, leq: (string, string) -> bool)
    requires TotalPreorder(leq)
    ensures Sort(Sort(s, key, leq), key, leq) == Sort(s, key, leq)
  {
    SortSorted(s, key, leq);
    SortOfSorted(Sort(s, key, leq), key, leq);
  }

  lemma {:induction false} PeersMember<T>(s: seq<T>, n: string, key: T -> string, leq: (string, string) -> bool, y: T)
    requires y in Peers(s, n, key, leq)
    ensures y in s && Equiv(leq, key(y), n)
  {
    if s != [] {
      var head := if Equiv(leq, key(s[0]), n) then [s[0]] else [];
      assert Peers(s, n, key, leq) == head + Peers(s[1..], n, key, leq);
      if y !in head {
        PeersMember(s[1..], n, key, leq, y);
      }
    }
  }

  lemma PeersOfHead<T>(s: seq<T>, key: T -> string, leq: (string, string) -> bool)
    requires TotalPreorder(leq)
    requires s != []
    ensures Peers(s, key(s[0]), key, leq) != []
  {
    var k0 := key(s[0]);
    assert leq(k0, k0);
  }

  /** In an ordered list, the head is not greater than any element with key `n`. */
  lemma HeadBelowPeers<T>(r: seq<T>, n: string, key: T -> string, leq: (string, string) -> bool)
    requires TotalPreorder(leq)
    requires Sorted(r, key, leq)
    requires Peers(r, n, key, leq) != []
    ensures leq(key(r[0]), n)
  {
    var y := Peers(r, n, key, leq)[0];
    PeersMember(r, n, key, leq, y);
    var k :| 0 <= k < |r| && r[k] == y;
    if k > 0 {
      assert leq(key(r[0]), key(r[k]));
    }
  }

  /**
   * Two ordered lists that agree on the order within every class of equal
   * names are the same list.
   */
  lemma {:induction false} SortedPeersDetermine<T>(r: seq<T>, t: seq<T>, key: T -> string, leq: (string, string) -> bool)
    requires TotalPreorder(leq)
    requires Sorted(r, key, leq) && Sorted(t, key, leq)
    requires forall n :: Peers(r, n, key, leq) == Peers(t, n, key, leq)
    ensures r == t
    decreases |r| + |t|
  {
    if r != [] {
      PeersOfHead(r, key, leq);
    }
    if t != [] {
      PeersOfHead(t, key, leq);
    }
    if r != [] && t != [] {
      var r', t' := r[1..], t[1..];
      SameHead(r, t, key, leq);
      PeersOfTails(r, t, key, leq);
      SortedTail(r, key, leq);
      SortedTail(t, key, leq);
      SortedPeersDetermine(r', t', key, leq);
      assert r == [r[0]] + r' && t == [t[0]] + t';
    }
  }

  lemma SortedTail<T>(r: seq<T>, key: T -> string, leq: (string, string) -> bool)
    requires r != [] && Sorted(r, key, leq)
    ensures Sorted(r[1..], key, leq)
  {
    forall i, j | 0 <= i < j < |r| - 1 ensures leq(key(r[1..][i]), key(r[1..][j])) {
      assert r[1..][i] == r[i + 1] && r[1..][j] == r[j + 1];
    }
  }

  /** Two non-empty ordered lists with the same peers start with the same element. */
  lemma SameHead<T>(r: seq<T>, t: seq<T>, key: T -> string, leq: (string, string) -> bool)
    requires TotalPreorder(leq)
    requires r != [] && t != []
    requires Sorted(r, key, leq) && Sorted(t, key, leq)
    requires forall n :: Peers(r, n, key, leq) == Peers(t, n, key, leq)
    ensures r[0] == t[0]
  {
    var a, b := r[0], t[0];
    PeersOfHead(r, key, leq);
    PeersOfHead(t, key, leq);
    assert Peers(t, key(b), key, leq) != [];
    HeadBelowPeers(r, key(b), key, leq);
    assert Peers(r, key(a), key, leq) != [];
    HeadBelowPeers(t, key(a), key, leq);
    assert Peers(r, key(a), key, leq)[0] == a;
    assert Peers(t, key(a), key, leq)[0] == b;
  }

  /** Two lists with the same head and the same peers have tails with the same peers. */
  lemma PeersOfTails<T>(r: seq<T>, t: seq<T>, key: T -> string, leq: (string, string) -> bool)
    requires r != [] && t != [] && r[0] == t[0]
    requires forall n :: Peers(r, n, key, leq) == Peers(t, n, key, leq)
    ensures forall n :: Peers(r[1..], n, key, leq) == Peers(t[1..], n, key, leq)
  {
    forall n ensures Peers(r[1..], n, key, leq) == Peers(t[1..], n, key, leq) {
      var head := if Equiv(leq, key(r[0]), n) then [r[0]] else [];
      assert Peers(r, n, key, leq) == head + Peers(r[1..], n, key, leq);
      assert Peers(t, n, key, leq) == head + Peers(t[1..], n, key, leq);
      assert Peers(r[1..], n, key, leq) == Peers(r, n, key, leq)[|head|..];
      assert Peers(t[1..], n, key, leq) == Peers(t, n, key, leq)[|head|..];
    }
  }

  /**
   * Any ordered result that keeps the input order among equal names, which is
   * what a conforming `Array.prototype.sort` returns, equals `Sort`.
   */
  lemma SortUnique<T>(s: seq<T>, r: seq<T>, key: T -> string, leq: (string, string) -> bool)
    requires TotalPreorder(leq)
    requires Sorted(r, key, leq)
    requires forall n :: Peers(r, n, key, leq) == Peers(s, n, key, leq)
    ensures r == Sort(s, key, leq)
  {
    SortSorted(s, key, leq);
    forall n ensures Peers(r, n, key, leq) == Peers(Sort(s, key, leq), n, key, leq) {
      SortStable(s, n, key, leq);
    }
    SortedPeersDetermine(r, Sort(s, key, leq), key, leq);
  }
}
