/**
 * Python's `sorted(xs, key=f, reverse=r)` and `list.sort`, as the habit
 * tracker uses them: a stable sort on a normalised key. The keys the source
 * sorts on are integers, percentages, date-times and strings; they are
 * compared as Python compares them, and each sort uses one kind of key.
 */
module Ordering {
  import opened LocalTime

  /** A normalised sort key. */
  datatype Key =
    | IntKey(i: int)
    | RealKey(x: real)
    | TimeKey(t: Timestamp)
    | TextKey(s: string)

  /** Python's `a <= b` on two strings: lexicographic by code point, a prefix first. */
  predicate TextLe(a: string, b: string)
    decreases |a|
  {
    |a| == 0 || (|b| > 0 && (a[0] < b[0] || (a[0] == b[0] && TextLe(a[1..], b[1..]))))
  }

  lemma {:induction false} TextLeTotal(a: string, b: string)
    ensures TextLe(a, b) || TextLe(b, a)
    decreases |a|
  {
    if |a| > 0 && |b| > 0 && a[0] == b[0] {
      TextLeTotal(a[1..], b[1..]);
    }
  }

  lemma {:induction false} TextLeAntisymmetric(a: string, b: string)
    requires TextLe(a, b) && TextLe(b, a)
    ensures a == b
    decreases |a|
  {
    if |a| > 0 {
      TextLeAntisymmetric(a[1..], b[1..]);
      assert a == [a[0]] + a[1..] && b == [b[0]] + b[1..];
    }
  }

  lemma {:induction false} TextLeTransitive(a: string, b: string, c: string)
    requires TextLe(a, b) && TextLe(b, c)
    ensures TextLe(a, c)
    decreases |a|
  {
    if |a| > 0 && a[0] == b[0] && b[0] == c[0] {
      TextLeTransitive(a[1..], b[1..], c[1..]);
    }
  }

  function Rank(k: Key): int {
    match k
    case IntKey(_) => 0
    case RealKey(_) => 1
    case TimeKey(_) => 2
    case TextKey(_) => 3
  }

  /** Python's `<=` on two keys of one kind; keys of different kinds are ranked by kind. */
  predicate KeyLe(a: Key, b: Key) {
    if Rank(a) != Rank(b) then Rank(a) < Rank(b)
    else match (a, b)
      case (IntKey(x), IntKey(y)) => x <= y
      case (RealKey(x), RealKey(y)) => x <= y
      case (TimeKey(x), TimeKey(y)) => AtOrBefore(x, y)
      case (TextKey(x), TextKey(y)) => TextLe(x, y)
  }

  lemma KeyLeTotal(a: Key, b: Key)
    ensures KeyLe(a, b) || KeyLe(b, a)
  {
    if a.TextKey? && b.TextKey? {
      TextLeTotal(a.s, b.s);
    }
  }

  lemma KeyLeAntisymmetric(a: Key, b: Key)
    requires KeyLe(a, b) && KeyLe(b, a)
    ensures a == b
  {
    if a.TextKey? && b.TextKey? {
      TextLeAntisymmetric(a.s, b.s);
    }
  }

  lemma KeyLeTransitive(a: Key, b: Key, c: Key)
    requires KeyLe(a, b) && KeyLe(b, c)
    ensures KeyLe(a, c)
  {
    if a.TextKey? && b.TextKey? && c.TextKey? {
      TextLeTransitive(a.s, b.s, c.s);
    }
  }

  /** Whether a key may come before another: `<=` ascending, `>=` with `reverse=True`. */
  predicate Precedes(a: Key, b: Key, desc: bool) {
    if desc then KeyLe(b, a) else KeyLe(a, b)
  }

  lemma PrecedesTotal(a: Key, b: Key, desc: bool)
    ensures Precedes(a, b, desc) || Precedes(b, a, desc)
  {
    KeyLeTotal(a, b);
  }

  lemma PrecedesTransitive(a: Key, b: Key, c: Key, desc: bool)
    requires Precedes(a, b, desc) && Precedes(b, c, desc)
    ensures Precedes(a, c, desc)
  {
    if desc { KeyLeTransitive(c, b, a); } else { KeyLeTransitive(a, b, c); }
  }

  lemma PrecedesBothWays(a: Key, b: Key, desc: bool)
    requires Precedes(a, b, desc) && Precedes(b, a, desc)
    ensures a == b
  {
    KeyLeAntisymmetric(a, b);
  }

  predicate SortedBy<T>(s: seq<T>, key: T -> Key, desc: bool) {
    forall i, j :: 0 <= i < j < |s| ==> Precedes(key(s[i]), key(s[j]), desc)
  }

  /** The elements of `s` whose key is `k`, in the order of `s`. */
  function WithSortKey<T>(s: seq<T>, key: T -> Key, k: Key): seq<T> {
    if s == [] then []
    else (if key(s[0]) == k then [s[0]] else []) + WithSortKey(s[1..], key, k)
  }

  lemma ConcatAssoc<T>(a: seq<T>, b: seq<T>, c: seq<T>)
    ensures a + (b + c) == (a + b) + c
  {
  }

  lemma {:induction false} WithSortKeyAppend<T>(a: seq<T>, b: seq<T>, key: T -> Key, k: Key)
    ensures WithSortKey(a + b, key, k) == WithSortKey(a, key, k) + WithSortKey(b, key, k)
  {
    if a == [] {
      assert a + b == b;
    } else {
      assert (a + b)[0] == a[0] && (a + b)[1..] == a[1..] + b;
      WithSortKeyAppend(a[1..], b, key, k);
      var head := if key(a[0]) == k then [a[0]] else [];
      assert WithSortKey(a + b, key, k) == head + WithSortKey(a[1..] + b, key, k);
      assert WithSortKey(a, key, k) == head + WithSortKey(a[1..], key, k);
      ConcatAssoc(head, WithSortKey(a[1..], key, k), WithSortKey(b, key, k));
    }
  }

  lemma {:induction false} WithSortKeyNone<T>(s: seq<T>, key: T -> Key, k: Key)
    requires forall i :: 0 <= i < |s| ==> key(s[i]) != k
    ensures WithSortKey(s, key, k) == []
  {
    if s != [] {
      WithSortKeyNone(s[1..], key, k);
    }
  }

  /**
   * Put `x` into sorted `s` after every element that may precede it, so an
   * element added later lands after the equal-keyed ones already there.
   */
  function Insert<T>(x: T, s: seq<T>, key: T -> Key, desc: bool): (r: seq<T>)
    ensures multiset(r) == multiset(s) + multiset{x}
    ensures |r| == |s| + 1
  {
    if s == [] || !Precedes(key(s[0]), key(x), desc) then [x] + s
    else
      assert s == [s[0]] + s[1..];
      [s[0]] + Insert(x, s[1..], key, desc)
  }

  lemma SortedTail<T>(s: seq<T>, key: T -> Key, desc: bool)
    requires s != [] && SortedBy(s, key, desc)
    ensures SortedBy(s[1..], key, desc)
  {
    forall i, j | 0 <= i < j < |s| - 1 ensures Precedes(key(s[1..][i]), key(s[1..][j]), desc) {
      assert s[1..][i] == s[i + 1] && s[1..][j] == s[j + 1];
    }
  }

  /** The elements of `Insert(x, s)` other than `x` come from `s`. */
  lemma InsertMembers<T>(x: T, s: seq<T>, key: T -> Key, desc: bool, y: T)
    requires y in Insert(x, s, key, desc) && y != x
    ensures y in s
  {
    assert y in multiset(Insert(x, s, key, desc));
  }

  lemma {:induction false} InsertKeepsSorted<T>(x: T, s: seq<T>, key: T -> Key, desc: bool)
    requires SortedBy(s, key, desc)
    ensures SortedBy(Insert(x, s, key, desc), key, desc)
  {
    var r := Insert(x, s, key, desc);
    if s == [] {
    } else if !Precedes(key(s[0]), key(x), desc) {
      PrecedesTotal(key(s[0]), key(x), desc);
      forall i, j | 0 <= i < j < |r| ensures Precedes(key(r[i]), key(r[j]), desc) {
        if i == 0 && j > 1 {
          PrecedesTransitive(key(x), key(s[0]), key(s[j - 1]), desc);
        }
      }
    } else {
      var rest := Insert(x, s[1..], key, desc);
      assert r == [s[0]] + rest;
      InsertKeepsSorted(x, s[1..], key, desc);
      forall j | 0 <= j < |rest| ensures Precedes(key(s[0]), key(rest[j]), desc) {
        if rest[j] != x {
          InsertMembers(x, s[1..], key, desc, rest[j]);
          var m :| 0 <= m < |s[1..]| && s[1..][m] == rest[j];
          assert s[1..][m] == s[m + 1];
        }
      }
    }
  }

  /** When `x` must go before the head of sorted `s`, no element of `s` has its key. */
  lemma NoneShareKey<T>(x: T, s: seq<T>, key: T -> Key, desc: bool)
    requires SortedBy(s, key, desc) && s != [] && !Precedes(key(s[0]), key(x), desc)
    ensures forall i :: 0 <= i < |s| ==> key(s[i]) != key(x)
  {
    PrecedesTotal(key(x), key(x), desc);
    forall i | 0 < i < |s| ensures key(s[i]) != key(x) {
      assert Precedes(key(s[0]), key(s[i]), desc);
    }
  }

  /** Inserting `x` appends it to the elements that share its key, and leaves the other keys alone. */
  lemma {:induction false} InsertStable<T>(x: T, s: seq<T>, key: T -> Key, desc: bool, k: Key)
    requires SortedBy(s, key, desc)
    ensures WithSortKey(Insert(x, s, key, desc), key, k) == WithSortKey(s, key, k) + (if key(x) == k then [x] else [])
  {
    if s == [] || !Precedes(key(s[0]), key(x), desc) {
      InsertInFront(x, s, key, desc, k);
    } else {
      var r, rest := Insert(x, s, key, desc), Insert(x, s[1..], key, desc);
      assert r == [s[0]] + rest;
      SortedTail(s, key, desc);
      InsertStable(x, s[1..], key, desc, k);
      var head := if key(s[0]) == k then [s[0]] else [];
      assert WithSortKey(r, key, k) == head + WithSortKey(rest, key, k);
      assert WithSortKey(s, key, k) == head + WithSortKey(s[1..], key, k);
    }
  }

  lemma InsertInFront<T>(x: T, s: seq<T>, key: T -> Key, desc: bool, k: Key)
    requires SortedBy(s, key, desc)
    requires s == [] || !Precedes(key(s[0]), key(x), desc)
    ensures WithSortKey(Insert(x, s, key, desc), key, k) == WithSortKey(s, key, k) + (if key(x) == k then [x] else [])
  {
    var r := Insert(x, s, key, desc);
    assert r == [x] + s;
    if s != [] {
      NoneShareKey(x, s, key, desc);
      WithSortKeyNone(s, key, key(x));
    }
    WithSortKeyAppend([x], s, key, k);
    assert WithSortKey([x], key, k) == (if key(x) == k then [x] else []) + WithSortKey([], key, k);
  }

  /**
   * `sorted(s, key=key, reverse=desc)`: a stable insertion sort. It returns a
   * new sequence and leaves `s` as it was.
   */
  function SortByKey<T>(s: seq<T>, key: T -> Key, desc: bool): (r: seq<T>)
    ensures multiset(r) == multiset(s)
    ensures |r| == |s|
    ensures SortedBy(r, key, desc)
    ensures forall k :: WithSortKey(r, key, k) == WithSortKey(s, key, k)
  {
    if s == [] then []
    else
      var init, last := s[..|s| - 1], s[|s| - 1];
      assert s == init + [last];
      var sortedInit := SortByKey(init, key, desc);
      InsertKeepsSorted(last, sortedInit, key, desc);
      assert forall k :: WithSortKey(Insert(last, sortedInit, key, desc), key, k) == WithSortKey(s, key, k) by {
        forall k ensures WithSortKey(Insert(last, sortedInit, key, desc), key, k) == WithSortKey(s, key, k) {
          InsertStable(last, sortedInit, key, desc, k);
          WithSortKeyAppend(init, [last], key, k);
        }
      }
      Insert(last, sortedInit, key, desc)
  }
}
