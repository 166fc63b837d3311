/**
 * Generic facts about sequences used by every part of the model: filtering,
 * subsequences, duplicate-free sequences, first-occurrence order, appending
 * only what is missing, and deleting a set of positions.
 *
 * Most definitions peel off the LAST element, because the source builds its
 * lists by appending at the end, one element per loop iteration.
 */
module Seqs {

  /** No element occurs twice. */
  predicate NoDup<T(==)>(s: seq<T>) {
    forall i, j :: 0 <= i < j < |s| ==> s[i] != s[j]
  }

  /** The elements of s satisfying p, in their original order. */
  function Filter<T>(s: seq<T>, p: T -> bool): seq<T> {
    if s == [] then []
    else Filter(s[..|s| - 1], p) + (if p(s[|s| - 1]) then [s[|s| - 1]] else [])
  }

  /** a can be obtained from b by deleting elements (order is kept). */
  predicate IsSubsequence<T(==)>(a: seq<T>, b: seq<T>)
    decreases |b|
  {
    if b == [] then a == []
    else
      (a != [] && a[|a| - 1] == b[|b| - 1] && IsSubsequence(a[..|a| - 1], b[..|b| - 1]))
      || IsSubsequence(a, b[..|b| - 1])
  }

  /** The position of the first occurrence of x in s. */
  function FirstIndex<T(==)>(s: seq<T>, x: T): (r: nat)
    requires x in s
    ensures r < |s| && s[r] == x && x !in s[..r]
  {
    if s[0] == x then 0 else 1 + FirstIndex(s[1..], x)
  }

  /** The elements of s, each once, in the order of their first occurrence. */
  function Distinct<T(==)>(s: seq<T>): seq<T> {
    if s == [] then []
    else
      var d := Distinct(s[..|s| - 1]);
      if s[|s| - 1] in s[..|s| - 1] then d else d + [s[|s| - 1]]
  }

  /**
   * The elements of fs that are not in s, each once, in the order of their
   * first occurrence in fs: what a loop "append f unless the list already
   * holds it" adds to s, checking against the list as it grows.
   */
  function Unseen<T(==)>(s: seq<T>, fs: seq<T>): seq<T> {
    if fs == [] then []
    else
      var u := Unseen(s, fs[..|fs| - 1]);
      var f := fs[|fs| - 1];
      if f in s || f in u then u else u + [f]
  }

  /** The elements of s[..n] whose positions are not in dead, in order. */
  function Keep<T>(s: seq<T>, dead: set<nat>, n: nat): seq<T>
    requires n <= |s|
  {
    if n == 0 then []
    else Keep(s, dead, n - 1) + (if n - 1 in dead then [] else [s[n - 1]])
  }

  /** s with the entries at the positions in dead removed. */
  function Without<T>(s: seq<T>, dead: set<nat>): seq<T> {
    Keep(s, dead, |s|)
  }

  /** s with the entry at position i removed. */
  function DeleteAt<T>(s: seq<T>, i: nat): (r: seq<T>)
    requires i < |s|
    ensures |r| == |s| - 1
  {
    s[..i] + s[i + 1..]
  }

  // ---------------------------------------------------------------------------
  // Filter

  lemma {:induction false} FilterMembers<T>(s: seq<T>, p: T -> bool, x: T)
    ensures x in Filter(s, p) <==> x in s && p(x)
    decreases |s|
  {
    if s != [] {
      FilterMembers(s[..|s| - 1], p, x);
      assert s == s[..|s| - 1] + [s[|s| - 1]];
    }
  }

  lemma {:induction false} FilterAppend<T>(a: seq<T>, b: seq<T>, p: T -> bool)
    ensures Filter(a + b, p) == Filter(a, p) + Filter(b, p)
    decreases |b|
  {
    if b != [] {
      var b' := b[..|b| - 1];
      assert (a + b)[..|a + b| - 1] == a + b';
      FilterAppend(a, b', p);
    } else {
      assert a + b == a;
    }
  }

  lemma {:induction false} FilterIsSubsequence<T>(s: seq<T>, p: T -> bool)
    ensures IsSubsequence(Filter(s, p), s)
    decreases |s|
  {
    if s != [] {
      var s' := s[..|s| - 1];
      FilterIsSubsequence(s', p);
      var f := Filter(s, p);
      if p(s[|s| - 1]) {
        assert f == Filter(s', p) + [s[|s| - 1]];
        assert f[..|f| - 1] == Filter(s', p);
      } else {
        assert f == Filter(s', p);
      }
    }
  }

  // ---------------------------------------------------------------------------
  // Subsequences

  lemma {:induction false} SubsequenceMembers<T>(a: seq<T>, b: seq<T>, x: T)
    requires IsSubsequence(a, b)
    requires x in a
    ensures x in b
    decreases |b|
  {
    var b' := b[..|b| - 1];
    if a != [] && a[|a| - 1] == b[|b| - 1] && IsSubsequence(a[..|a| - 1], b') {
      if x != a[|a| - 1] {
        assert a == a[..|a| - 1] + [a[|a| - 1]];
        SubsequenceMembers(a[..|a| - 1], b', x);
      }
    } else {
      SubsequenceMembers(a, b', x);
    }
  }

  lemma {:induction false} SubsequenceNoDup<T>(a: seq<T>, b: seq<T>)
    requires IsSubsequence(a, b) && NoDup(b)
    ensures NoDup(a)
    decreases |b|
  {
    if b != [] {
      var b' := b[..|b| - 1];
      assert NoDup(b');
      if a != [] && a[|a| - 1] == b[|b| - 1] && IsSubsequence(a[..|a| - 1], b') {
        var a' := a[..|a| - 1];
        SubsequenceNoDup(a', b');
        forall i, j | 0 <= i < j < |a| ensures a[i] != a[j] {
          if j < |a| - 1 {
            assert a[i] == a'[i] && a[j] == a'[j];
          } else {
            assert a[i] in a';
            SubsequenceMembers(a', b', a[i]);
          }
        }
      } else {
        SubsequenceNoDup(a, b');
      }
    }
  }

  lemma {:induction false} NoDupAppend<T>(s: seq<T>, x: T)
    requires NoDup(s) && x !in s
    ensures NoDup(s + [x])
  {
    forall i, j | 0 <= i < j < |s + [x]| ensures (s + [x])[i] != (s + [x])[j] {
      if j == |s| {
        assert (s + [x])[i] == s[i];
      }
    }
  }

  /** A duplicate-free sequence has as many distinct elements as entries. */
  lemma {:induction false} NoDupCardinality<T>(s: seq<T>)
    requires NoDup(s)
    ensures |set x | x in s| == |s|
    decreases |s|
  {
    if s != [] {
      var s' := s[..|s| - 1];
      var last := s[|s| - 1];
      assert NoDup(s');
      NoDupCardinality(s');
      assert s == s' + [last];
      assert (set x | x in s) == (set x | x in s') + {last};
    }
  }

  // ---------------------------------------------------------------------------
  // Distinct

  lemma {:induction false} DistinctMembers<T>(s: seq<T>, x: T)
    ensures x in Distinct(s) <==> x in s
    decreases |s|
  {
    if s != [] {
      var s' := s[..|s| - 1];
      DistinctMembers(s', x);
      assert s == s' + [s[|s| - 1]];
    }
  }

  lemma {:induction false} DistinctNoDup<T>(s: seq<T>)
    ensures NoDup(Distinct(s))
    decreases |s|
  {
    if s != [] {
      var s' := s[..|s| - 1];
      DistinctNoDup(s');
      if s[|s| - 1] !in s' {
        DistinctMembers(s', s[|s| - 1]);
        NoDupAppend(Distinct(s'), s[|s| - 1]);
      }
    }
  }

  lemma {:induction false} DistinctLength<T>(s: seq<T>)
    ensures |Distinct(s)| <= |s|
    decreases |s|
  {
    if s != [] {
      DistinctLength(s[..|s| - 1]);
    }
  }

  /** Distinct(s) lists the elements of s in the order of their first occurrence. */
  lemma {:induction false} DistinctFirstOccurrenceOrder<T>(s: seq<T>, i: nat, j: nat)
    requires i < j < |Distinct(s)|
    ensures Distinct(s)[i] in s && Distinct(s)[j] in s
    ensures FirstIndex(s, Distinct(s)[i]) < FirstIndex(s, Distinct(s)[j])
    decreases |s|
  {
    var d := Distinct(s);
    DistinctMembers(s, d[i]);
    DistinctMembers(s, d[j]);
    var s' := s[..|s| - 1];
    var d' := Distinct(s');
    var last := s[|s| - 1];
    if j < |d'| {
      DistinctFirstOccurrenceOrder(s', i, j);
      FirstIndexPrefix(s', last, d[i]);
      FirstIndexPrefix(s', last, d[j]);
      assert s == s' + [last];
    } else {
      // d[j] is the last element, first seen at the end of s
      assert d == d' + [last] && d[j] == last;
      assert d[i] == d'[i];
      DistinctMembers(s', d[i]);
      FirstIndexPrefix(s', last, d[i]);
      assert s == s' + [last];
    }
  }

  lemma FirstIndexPrefix<T>(s: seq<T>, y: T, x: T)
    requires x in s
    ensures x in s + [y] && FirstIndex(s + [y], x) == FirstIndex(s, x)
  {
    var t := s + [y];
    assert t[FirstIndex(s, x)] == x;
  }

  lemma {:induction false} DistinctOfNoDup<T>(s: seq<T>)
    requires NoDup(s)
    ensures Distinct(s) == s
    decreases |s|
  {
    if s != [] {
      var s' := s[..|s| - 1];
      assert NoDup(s');
      DistinctOfNoDup(s');
      assert s == s' + [s[|s| - 1]];
    }
  }

  // ---------------------------------------------------------------------------
  // Unseen: appending only what is missing

  lemma {:induction false} UnseenMembers<T>(s: seq<T>, fs: seq<T>, x: T)
    ensures x in Unseen(s, fs) <==> x in fs && x !in s
    decreases |fs|
  {
    if fs != [] {
      UnseenMembers(s, fs[..|fs| - 1], x);
      assert fs == fs[..|fs| - 1] + [fs[|fs| - 1]];
    }
  }

  /** Appending only missing elements keeps a duplicate-free list duplicate-free. */
  lemma {:induction false} UnseenKeepsNoDup<T>(s: seq<T>, fs: seq<T>)
    requires NoDup(s)
    ensures NoDup(s + Unseen(s, fs))
    decreases |fs|
  {
    if fs != [] {
      var fs' := fs[..|fs| - 1];
      var f := fs[|fs| - 1];
      var u := Unseen(s, fs');
      UnseenKeepsNoDup(s, fs');
      if !(f in s || f in u) {
        NoDupAppend(s + u, f);
        assert s + (u + [f]) == (s + u) + [f];
      }
    }
  }

  /**
   * On a duplicate-free list, appending the unseen elements of fs gives the
   * first-occurrence order of the whole sequence s + fs.
   */
  lemma {:induction false} UnseenIsDistinct<T>(s: seq<T>, fs: seq<T>)
    requires NoDup(s)
    ensures s + Unseen(s, fs) == Distinct(s + fs)
    decreases |fs|
  {
    if fs == [] {
      assert s + fs == s;
      DistinctOfNoDup(s);
    } else {
      var fs' := fs[..|fs| - 1];
      var f := fs[|fs| - 1];
      UnseenIsDistinct(s, fs');
      UnseenMembers(s, fs', f);
      assert (s + fs)[..|s + fs| - 1] == s + fs';
      assert (s + fs)[|s + fs| - 1] == f;
      assert f in s + fs' <==> f in s || f in fs';
    }
  }

  /** When every element of fs is already in s, nothing is appended. */
  lemma {:induction false} UnseenAllSeen<T>(s: seq<T>, fs: seq<T>)
    requires forall x :: x in fs ==> x in s
    ensures Unseen(s, fs) == []
    decreases |fs|
  {
    if fs != [] {
      assert fs[|fs| - 1] in fs;
      forall x | x in fs[..|fs| - 1] ensures x in s {
        assert x in fs;
      }
      UnseenAllSeen(s, fs[..|fs| - 1]);
    }
  }

  /** When no element of fs is in s, s plays no part in what is appended. */
  lemma {:induction false} UnseenOfDisjoint<T>(s: seq<T>, fs: seq<T>)
    requires forall x :: x in fs ==> x !in s
    ensures Unseen(s, fs) == Unseen([], fs)
    decreases |fs|
  {
    if fs != [] {
      assert fs[|fs| - 1] in fs;
      forall x | x in fs[..|fs| - 1] ensures x !in s {
        assert x in fs;
      }
      UnseenOfDisjoint(s, fs[..|fs| - 1]);
    }
  }

  /** Filtering a sequence all of whose elements pass keeps all of it. */
  lemma {:induction false} FilterAll<T>(s: seq<T>, p: T -> bool)
    requires forall x :: x in s ==> p(x)
    ensures Filter(s, p) == s
    decreases |s|
  {
    if s != [] {
      assert s[|s| - 1] in s;
      forall x | x in s[..|s| - 1] ensures p(x) {
        assert x in s;
      }
      FilterAll(s[..|s| - 1], p);
    }
  }

  /** Filtering a sequence none of whose elements pass leaves nothing. */
  lemma {:induction false} FilterNone<T>(s: seq<T>, p: T -> bool)
    requires forall x :: x in s ==> !p(x)
    ensures Filter(s, p) == []
    decreases |s|
  {
    if s != [] {
      assert s[|s| - 1] in s;
      forall x | x in s[..|s| - 1] ensures !p(x) {
        assert x in s;
      }
      FilterNone(s[..|s| - 1], p);
    }
  }

  // ---------------------------------------------------------------------------
  // Grouping by a key

  /** The key of each element of s, in order. */
  function KeysOf<T, K>(s: seq<T>, key: T -> K): (r: seq<K>)
    ensures |r| == |s|
  {
    if s == [] then [] else KeysOf(s[..|s| - 1], key) + [key(s[|s| - 1])]
  }

  /** The elements of s whose key is k, in order. */
  function GroupOf<T, K(==)>(s: seq<T>, key: T -> K, k: K): seq<T> {
    Filter(s, x => key(x) == k)
  }

  /**
   * What a loop that files each element of done under its key has built:
   * the keys in order of first occurrence, a list for exactly those keys,
   * and under each key the elements carrying it, in order.
   */
  ghost predicate GroupedBy<T, K(!new)>(done: seq<T>, key: T -> K, order: seq<K>, lists: map<K, seq<T>>) {
    && order == Distinct(KeysOf(done, key))
    && (forall k :: k in lists <==> k in order)
    && (forall k :: k in lists ==> lists[k] == GroupOf(done, key, k))
  }

  /**
   * One pass over s that files each element under its key: a key gets an
   * empty list the first time it is seen, then the element is appended to
   * the list of its key.
   */
  method GroupByKey<T, K(==, !new)>(s: seq<T>, key: T -> K) returns (order: seq<K>, lists: map<K, seq<T>>)
    ensures GroupedBy(s, key, order, lists)
  {
    order, lists := [], map[];
    var i := 0;
    while i < |s|
      invariant 0 <= i <= |s|
      invariant GroupedBy(s[..i], key, order, lists)
    {
      var x := s[i];
      var k := key(x);
      ghost var order0, lists0 := order, lists;
      if k !in lists {
        order := order + [k];
        lists := lists[k := []];
      }
      lists := lists[k := lists[k] + [x]];
      GroupedByStep(s, i, key, order0, lists0, order, lists);
      i := i + 1;
    }
    assert s[..i] == s;
  }

  lemma {:induction false} KeysOfAt<T, K>(s: seq<T>, key: T -> K, i: nat)
    requires i < |s|
    ensures KeysOf(s, key)[i] == key(s[i])
    decreases |s|
  {
    if i < |s| - 1 {
      KeysOfAt(s[..|s| - 1], key, i);
    }
  }

  lemma KeysOfSnoc<T, K>(s: seq<T>, x: T, key: T -> K)
    ensures KeysOf(s + [x], key) == KeysOf(s, key) + [key(x)]
  {
    assert (s + [x])[..|s|] == s;
  }

  /** The keys occurring in s are exactly the keys of its elements. */
  lemma KeysOfMembers<T, K>(s: seq<T>, key: T -> K, k: K)
    ensures k in KeysOf(s, key) <==> exists x :: x in s && key(x) == k
  {
    if k in KeysOf(s, key) {
      var j :| 0 <= j < |s| && KeysOf(s, key)[j] == k;
      KeysOfAt(s, key, j);
      assert s[j] in s;
    }
    if exists x :: x in s && key(x) == k {
      var x :| x in s && key(x) == k;
      var j :| 0 <= j < |s| && s[j] == x;
      KeysOfAt(s, key, j);
      assert KeysOf(s, key)[j] == k;
    }
  }

  lemma GroupOfSnoc<T, K>(s: seq<T>, x: T, key: T -> K, k: K)
    ensures GroupOf(s + [x], key, k) == GroupOf(s, key, k) + (if key(x) == k then [x] else [])
  {
    assert (s + [x])[..|s|] == s;
  }

  /** An element is in the group of k iff it is in s and its key is k. */
  lemma GroupOfMembers<T, K>(s: seq<T>, key: T -> K, k: K, x: T)
    ensures x in GroupOf(s, key, k) <==> x in s && key(x) == k
  {
    FilterMembers(s, y => key(y) == k, x);
  }

  lemma GroupOfIsSubsequence<T, K>(s: seq<T>, key: T -> K, k: K)
    ensures IsSubsequence(GroupOf(s, key, k), s)
  {
    FilterIsSubsequence(s, y => key(y) == k);
  }

  lemma GroupOfAppend<T, K>(a: seq<T>, b: seq<T>, key: T -> K, k: K)
    ensures GroupOf(a + b, key, k) == GroupOf(a, key, k) + GroupOf(b, key, k)
  {
    FilterAppend(a, b, y => key(y) == k);
  }

  /** A key no element carries has an empty group. */
  lemma GroupOfAbsent<T, K>(s: seq<T>, key: T -> K, k: K)
    requires k !in KeysOf(s, key)
    ensures GroupOf(s, key, k) == []
  {
    if GroupOf(s, key, k) != [] {
      var x := GroupOf(s, key, k)[0];
      GroupOfMembers(s, key, k, x);
      KeysOfMembers(s, key, k);
    }
  }

  /** One more element appends its key to the key order iff the key is new. */
  lemma DistinctKeysSnoc<T, K>(s: seq<T>, x: T, key: T -> K)
    ensures key(x) in Distinct(KeysOf(s, key)) <==> key(x) in KeysOf(s, key)
    ensures Distinct(KeysOf(s + [x], key)) ==
      if key(x) in KeysOf(s, key) then Distinct(KeysOf(s, key))
      else Distinct(KeysOf(s, key)) + [key(x)]
  {
    var ks := KeysOf(s + [x], key);
    KeysOfSnoc(s, x, key);
    assert ks[..|ks| - 1] == KeysOf(s, key);
    DistinctMembers(KeysOf(s, key), key(x));
  }

  /**
   * One iteration of the grouping loop keeps GroupedBy: the key of s[i] is
   * appended to the order if it is new, and s[i] to the end of its list.
   */
  lemma GroupedByStep<T, K(!new)>(s: seq<T>, i: nat, key: T -> K, order: seq<K>, lists: map<K, seq<T>>,
                                order': seq<K>, lists': map<K, seq<T>>)
    requires i < |s| && GroupedBy(s[..i], key, order, lists)
    requires order' == if key(s[i]) in lists then order else order + [key(s[i])]
    requires lists' == lists[key(s[i]) := (if key(s[i]) in lists then lists[key(s[i])] else []) + [s[i]]]
    ensures GroupedBy(s[..i + 1], key, order', lists')
  {
    var done, x, f := s[..i], s[i], key(s[i]);
    assert s[..i + 1] == done + [x];
    DistinctKeysSnoc(done, x, key);
    if f !in lists {
      GroupOfAbsent(done, key, f);
    }
    forall k | k in lists' ensures lists'[k] == GroupOf(done + [x], key, k) {
      GroupOfSnoc(done, x, key, k);
    }
  }

  // ---------------------------------------------------------------------------
  // Keep / Without: deleting positions

  /** When no dead position lies below n, nothing of s[..n] is dropped. */
  lemma {:induction false} KeepAllBelow<T>(s: seq<T>, dead: set<nat>, n: nat)
    requires n <= |s|
    requires forall d :: d in dead ==> d >= n
    ensures Keep(s, dead, n) == s[..n]
  {
    if n > 0 {
      KeepAllBelow(s, dead, n - 1);
      assert s[..n] == s[..n - 1] + [s[n - 1]];
    }
  }

  /**
   * Deleting position m from the list that already lost the positions in
   * dead, all above m, is the same as losing dead + {m}: the pending
   * position m still names the same entry because nothing below it moved.
   */
  lemma {:induction false} DeleteBelowDead<T>(s: seq<T>, dead: set<nat>, m: nat, n: nat)
    requires m < n <= |s|
    requires m !in dead
    requires forall d :: d in dead ==> d > m
    ensures m < |Keep(s, dead, n)|
    ensures Keep(s, dead + {m}, n) == DeleteAt(Keep(s, dead, n), m)
  {
    if n == m + 1 {
      KeepAllBelow(s, dead, m);
      KeepAllBelow(s, dead + {m}, m);
    } else {
      DeleteBelowDead(s, dead, m, n - 1);
      var k := Keep(s, dead, n - 1);
      var t: seq<T> := if n - 1 in dead then [] else [s[n - 1]];
      assert Keep(s, dead, n) == k + t;
      assert Keep(s, dead + {m}, n) == DeleteAt(k, m) + t;
      assert (k + t)[..m] == k[..m];
      assert (k + t)[m + 1..] == k[m + 1..] + t;
    }
  }

  lemma {:induction false} KeepLength<T>(s: seq<T>, dead: set<nat>, n: nat)
    requires n <= |s|
    ensures |Keep(s, dead, n)| == n - |set d | d in dead && d < n|
  {
    if n == 0 {
      assert (set d | d in dead && d < n) == {};
    } else {
      KeepLength(s, dead, n - 1);
      var below := set d | d in dead && d < n - 1;
      var below' := set d | d in dead && d < n;
      if n - 1 in dead {
        assert below' == below + {n - 1};
      } else {
        assert below' == below;
      }
    }
  }

  lemma {:induction false} KeepIsSubsequence<T>(s: seq<T>, dead: set<nat>, n: nat)
    requires n <= |s|
    ensures IsSubsequence(Keep(s, dead, n), s[..n])
  {
    if n > 0 {
      KeepIsSubsequence(s, dead, n - 1);
      assert s[..n][..n - 1] == s[..n - 1];
      var k := Keep(s, dead, n);
      if n - 1 !in dead {
        assert k == Keep(s, dead, n - 1) + [s[n - 1]];
        assert k[..|k| - 1] == Keep(s, dead, n - 1);
        assert k[|k| - 1] == s[..n][n - 1];
      } else {
        assert k == Keep(s, dead, n - 1);
      }
    }
  }

  lemma {:induction false} KeepKeepsLive<T>(s: seq<T>, dead: set<nat>, n: nat, i: nat)
    requires i < n <= |s| && i !in dead
    ensures s[i] in Keep(s, dead, n)
  {
    if i < n - 1 {
      KeepKeepsLive(s, dead, n - 1, i);
    }
  }

  lemma {:induction false} KeepDropsDead<T>(s: seq<T>, dead: set<nat>, n: nat, i: nat)
    requires n <= |s| && NoDup(s)
    requires i in dead && i < |s|
    ensures s[i] !in Keep(s, dead, n)
  {
    if n > 0 {
      KeepDropsDead(s, dead, n - 1, i);
    }
  }

  /**
   * Without(s, dead) deletes exactly the entries at the positions in dead:
   * it has |s| - |dead| entries, keeps the others in their order, and (when s
   * has no duplicates) no longer holds any deleted entry.
   */
  lemma WithoutSpec<T>(s: seq<T>, dead: set<nat>)
    requires forall d :: d in dead ==> d < |s|
    ensures |Without(s, dead)| == |s| - |dead|
    ensures IsSubsequence(Without(s, dead), s)
    ensures forall i :: 0 <= i < |s| && i !in dead ==> s[i] in Without(s, dead)
    ensures NoDup(s) ==> forall i :: i in dead ==> s[i] !in Without(s, dead)
    ensures NoDup(s) ==> NoDup(Without(s, dead))
    ensures NoDup(s) ==> forall i :: 0 <= i < |s| ==> (s[i] in Without(s, dead) <==> i !in dead)
  {
    KeepLength(s, dead, |s|);
    assert (set d | d in dead && d < |s|) == dead;
    KeepIsSubsequence(s, dead, |s|);
    assert s[..|s|] == s;
    forall i | 0 <= i < |s| && i !in dead ensures s[i] in Without(s, dead) {
      KeepKeepsLive(s, dead, |s|, i);
    }
    if NoDup(s) {
      forall i | i in dead ensures s[i] !in Without(s, dead) {
        KeepDropsDead(s, dead, |s|, i);
      }
      SubsequenceNoDup(Without(s, dead), s);
    }
  }

  /**
   * One step of deleting a set of positions highest first: when every
   * position still pending lies below every position already deleted,
   * deleting the highest pending one at its current index removes it from
   * the original sequence, and the rest stay below the deleted ones.
   */
  lemma DeleteHighestPending<T>(s: seq<T>, done: set<nat>, pending: set<nat>, i: nat)
    requires forall p :: p in pending ==> p < |s|
    requires forall p, d :: p in pending && d in done ==> p < d
    requires i in pending && forall p :: p in pending ==> p <= i
    ensures i < |Keep(s, done, |s|)|
    ensures Keep(s, done + {i}, |s|) == DeleteAt(Keep(s, done, |s|), i)
    ensures forall p, d :: p in pending - {i} && d in done + {i} ==> p < d
  {
    DeleteBelowDead(s, done, i, |s|);
  }

  /** A non-empty set of positions, all below n, has a largest element. */
  lemma {:induction false} HasMax(positions: set<nat>, n: nat)
    requires positions != {}
    requires forall p :: p in positions ==> p < n
    ensures exists m :: m in positions && forall p :: p in positions ==> p <= m
    decreases n
  {
    var x :| x in positions;
    assert x < n;
    if n - 1 in positions {
      assert forall p :: p in positions ==> p <= n - 1;
    } else {
      HasMax(positions, n - 1);
    }
  }
}
