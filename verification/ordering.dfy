/**
 * Python's ordering of sort keys (strings and ints in tuples) and the stable
 * sort that `list.sort(key=...)` and `sorted(..., key=...)` perform.
 */
module Ordering {

  /** Python's `a <= b` on str: code-point lexicographic order, a prefix first. */
  predicate StrLe(a: string, b: string)
    decreases |a|
  {
    a == [] || (b != [] && (a[0] < b[0] || (a[0] == b[0] && StrLe(a[1..], b[1..]))))
  }

  lemma {:induction false} StrLeReflexive(a: string)
    ensures StrLe(a, a)
    decreases |a|
  {
    if a != [] { StrLeReflexive(a[1..]); }
  }

  lemma {:induction false} StrLeTotal(a: string, b: string)
    ensures StrLe(a, b) || StrLe(b, a)
    decreases |a|
  {
    if a != [] && b != [] && a[0] == b[0] { StrLeTotal(a[1..], b[1..]); }
  }

  lemma {:induction false} StrLeAntisymmetric(a: string, b: string)
    requires StrLe(a, b) && StrLe(b, a)
    ensures a == b
    decreases |a|
  {
    if a != [] && b != [] {
      StrLeAntisymmetric(a[1..], b[1..]);
      assert a == [a[0]] + a[1..] && b == [b[0]] + b[1..];
    }
  }

  lemma {:induction false} StrLeTransitive(a: string, b: string, c: string)
    requires StrLe(a, b) && StrLe(b, c)
    ensures StrLe(a, c)
    decreases |a|
  {
    if a != [] && b != [] && c != [] && a[0] == b[0] && b[0] == c[0] {
      StrLeTransitive(a[1..], b[1..], c[1..]);
    }
  }

  /** One component of a sort key: Python compares tuples of str and int. */
  datatype KeyPart = S(s: string) | N(n: int)

  type Key = seq<KeyPart>

  predicate PartLe(x: KeyPart, y: KeyPart) {
    match (x, y)
    case (S(a), S(b)) => StrLe(a, b)
    case (N(a), N(b)) => a <= b
    case (N(_), S(_)) => true
    case (S(_), N(_)) => false
  }

  lemma PartLeIsTotalOrder(x: KeyPart, y: KeyPart, z: KeyPart)
    ensures PartLe(x, x)
    ensures PartLe(x, y) || PartLe(y, x)
    ensures PartLe(x, y) && PartLe(y, x) ==> x == y
    ensures PartLe(x, y) && PartLe(y, z) ==> PartLe(x, z)
  {
    match (x, y, z)
    case (S(a), S(b), S(c)) =>
      StrLeReflexive(a);
      StrLeTotal(a, b);
      if StrLe(a, b) && StrLe(b, a) { StrLeAntisymmetric(a, b); }
      if StrLe(a, b) && StrLe(b, c) { StrLeTransitive(a, b, c); }
    case (S(a), S(b), N(_)) =>
      StrLeReflexive(a);
      StrLeTotal(a, b);
      if StrLe(a, b) && StrLe(b, a) { StrLeAntisymmetric(a, b); }
    case (S(a), N(_), _) => StrLeReflexive(a);
    case (N(_), S(b), S(c)) =>
      if StrLe(b, c) { }
    case (N(_), _, _) =>
  }

  /** Python's `a <= b` on tuples: the first differing component decides. */
  predicate KeyLe(a: Key, b: Key)
    decreases |a|
  {
    a == [] || (b != [] && ((a[0] != b[0] && PartLe(a[0], b[0])) || (a[0] == b[0] && KeyLe(a[1..], b[1..]))))
  }

  lemma {:induction false} KeyLeReflexive(a: Key)
    ensures KeyLe(a, a)
    decreases |a|
  {
    if a != [] { KeyLeReflexive(a[1..]); }
  }

  lemma {:induction false} KeyLeTotal(a: Key, b: Key)
    ensures KeyLe(a, b) || KeyLe(b, a)
    decreases |a|
  {
    if a != [] && b != [] {
      PartLeIsTotalOrder(a[0], b[0], b[0]);
      if a[0] == b[0] { KeyLeTotal(a[1..], b[1..]); }
    }
  }

  lemma {:induction false} KeyLeAntisymmetric(a: Key, b: Key)
    requires KeyLe(a, b) && KeyLe(b, a)
    ensures a == b
    decreases |a|
  {
    if a != [] && b != [] {
      PartLeIsTotalOrder(a[0], b[0], b[0]);
      KeyLeAntisymmetric(a[1..], b[1..]);
      assert a == [a[0]] + a[1..] && b == [b[0]] + b[1..];
    }
  }

  lemma {:induction false} KeyLeTransitive(a: Key, b: Key, c: Key)
    requires KeyLe(a, b) && KeyLe(b, c)
    ensures KeyLe(a, c)
    decreases |a|
  {
    if a != [] && b != [] && c != [] {
      PartLeIsTotalOrder(a[0], b[0], c[0]);
      PartLeIsTotalOrder(b[0], c[0], a[0]);
      PartLeIsTotalOrder(c[0], a[0], b[0]);
      if a[0] == b[0] && b[0] == c[0] { KeyLeTransitive(a[1..], b[1..], c[1..]); }
    }
  }

  /** Every element's key is at most every later element's key. */
  ghost predicate SortedBy<T>(s: seq<T>, key: T -> Key) {
    forall i, j :: 0 <= i < j < |s| ==> KeyLe(key(s[i]), key(s[j]))
  }

  /** The elements of `s` whose key is `k`, in their order in `s`. */
  function Select<T>(s: seq<T>, key: T -> Key, k: Key): seq<T>
  {
    if s == [] then [] else (if key(s[0]) == k then [s[0]] else []) + Select(s[1..], key, k)
  }

  /**
   * Places `x` before the first element whose key is not smaller: in front of
   * every element with an equal key.
   */
  function Insert<T>(x: T, s: seq<T>, key: T -> Key): (r: seq<T>)
    ensures |r| == |s| + 1 && multiset(r) == multiset(s) + multiset{x}
  {
    if s == [] then [x]
    else if KeyLe(key(x), key(s[0])) then [x] + s
    else
      assert s == [s[0]] + s[1..];
      [s[0]] + Insert(x, s[1..], key)
  }

  /** Inserting into a sorted sequence keeps it sorted. */
  lemma {:induction false} InsertSorted<T>(x: T, s: seq<T>, key: T -> Key)
    requires SortedBy(s, key)
    ensures SortedBy(Insert(x, s, key), key)
  {
    if s == [] {
    } else if KeyLe(key(x), key(s[0])) {
      var r := [x] + s;
      forall i, j | 0 <= i < j < |r| ensures KeyLe(key(r[i]), key(r[j])) {
        if i == 0 && j > 1 { KeyLeTransitive(key(x), key(s[0]), key(s[j - 1])); }
      }
    } else {
      var rest := Insert(x, s[1..], key);
      var r := [s[0]] + rest;
      InsertSorted(x, s[1..], key);
      KeyLeTotal(key(x), key(s[0]));
      forall j | 0 < j < |r| ensures KeyLe(key(s[0]), key(r[j])) {
        assert r[j] == rest[j - 1];
        assert r[j] in multiset(rest);
        if r[j] != x {
          assert r[j] in multiset(s[1..]);
          var m :| 0 <= m < |s[1..]| && s[1..][m] == r[j];
          assert s[m + 1] == r[j];
        }
      }
    }
  }

  /** `Select` on a sequence with a known first element. */
  lemma SelectCons<T>(y: T, t: seq<T>, key: T -> Key, k: Key)
    ensures Select([y] + t, key, k) == (if key(y) == k then [y] else []) + Select(t, key, k)
  {
    var r := [y] + t;
    assert r[0] == y && r[1..] == t;
  }

  /** Among elements of its own key, the inserted one comes first. */
  lemma {:induction false} InsertSelect<T>(x: T, s: seq<T>, key: T -> Key, k: Key)
    ensures Select(Insert(x, s, key), key, k) == (if key(x) == k then [x] else []) + Select(s, key, k)
  {
    if s == [] {
      SelectCons(x, s, key, k);
    } else if KeyLe(key(x), key(s[0])) {
      SelectCons(x, s, key, k);
    } else {
      InsertSelect(x, s[1..], key, k);
      assert key(s[0]) != key(x) by { KeyLeReflexive(key(x)); }
      InsertSelectPast(x, s, key, k);
    }
  }

  /** The step of `InsertSelect` where `x` moves past the first element. */
  lemma InsertSelectPast<T>(x: T, s: seq<T>, key: T -> Key, k: Key)
    requires s != [] && key(s[0]) != key(x)
    requires Select(Insert(x, s[1..], key), key, k) == (if key(x) == k then [x] else []) + Select(s[1..], key, k)
    ensures Select([s[0]] + Insert(x, s[1..], key), key, k) == (if key(x) == k then [x] else []) + Select(s, key, k)
  {
    SelectCons(s[0], Insert(x, s[1..], key), key, k);
    SwapDisjoint(if key(s[0]) == k then [s[0]] else [], if key(x) == k then [x] else [], Select(s[1..], key, k));
  }

  /** Two pieces of which one is empty can be put in either order. */
  lemma SwapDisjoint<T>(a: seq<T>, b: seq<T>, c: seq<T>)
    requires a == [] || b == []
    ensures a + (b + c) == b + (a + c)
  {
    if a == [] {
      assert a + (b + c) == b + c;
    } else {
      assert b + (a + c) == a + c;
    }
  }

  /**
   * A stable sort by `key` (Python's `list.sort(key=key)`): the result is a
   * permutation of `s` ordered by key.
   */
  function Sort<T>(s: seq<T>, key: T -> Key): (r: seq<T>)
    ensures |r| == |s| && multiset(r) == multiset(s)
    ensures SortedBy(r, key)
  {
    if s == [] then []
    else
      assert s == [s[0]] + s[1..];
      InsertSorted(s[0], Sort(s[1..], key), key);
      Insert(s[0], Sort(s[1..], key), key)
  }

  /** A single element is already sorted. */
  lemma SortSingleton<T>(x: T, key: T -> Key)
    ensures Sort([x], key) == [x]
  {
    assert [x][1..] == [];
  }

  /** Stability: elements with equal keys keep their relative input order. */
  lemma {:induction false} SortStable<T>(s: seq<T>, key: T -> Key, k: Key)
    ensures Select(Sort(s, key), key, k) == Select(s, key, k)
  {
    if s != [] {
      SortStable(s[1..], key, k);
      InsertSelect(s[0], Sort(s[1..], key), key, k);
    }
  }

  /**
   * A key order with stable ties leaves no freedom: two sequences sorted by key
   * that agree on the elements of every key, in order, are equal.
   */
  lemma {:induction false} SortedUnique<T>(r: seq<T>, t: seq<T>, key: T -> Key)
    requires SortedBy(r, key) && SortedBy(t, key)
    requires forall k :: Select(r, key, k) == Select(t, key, k)
    ensures r == t
    decreases |r|
  {
    if r == [] || t == [] {
      SelectOwnKey(r, key);
      SelectOwnKey(t, key);
    } else {
      var a, b := key(r[0]), key(t[0]);
      SelectOwnKey(r, key);
      SelectOwnKey(t, key);
      var j := SelectMember(t, key, a);
      var i := SelectMember(r, key, b);
      if j > 0 { }
      assert KeyLe(b, a) by { if j > 0 { } else { KeyLeReflexive(a); } }
      assert KeyLe(a, b) by { if i > 0 { } else { KeyLeReflexive(b); } }
      KeyLeAntisymmetric(a, b);
      assert r[0] == t[0];
      forall k ensures Select(r[1..], key, k) == Select(t[1..], key, k) {
        var p := if a == k then [r[0]] else [];
        var x, y := Select(r[1..], key, k), Select(t[1..], key, k);
        assert Select(r, key, k) == p + x;
        assert Select(t, key, k) == p + y;
        assert x == (p + x)[|p|..] && y == (p + y)[|p|..];
      }
      SortedUnique(r[1..], t[1..], key);
      assert r == [r[0]] + r[1..] && t == [t[0]] + t[1..];
    }
  }

  lemma SelectOwnKey<T>(s: seq<T>, key: T -> Key)
    ensures s != [] ==> Select(s, key, key(s[0])) == [s[0]] + Select(s[1..], key, key(s[0]))
  {
  }

  /** An element with key `k` selected from `s` sits somewhere in `s`. */
  lemma {:induction false} SelectMember<T>(s: seq<T>, key: T -> Key, k: Key) returns (j: nat)
    requires Select(s, key, k) != []
    ensures j < |s| && key(s[j]) == k
  {
    if key(s[0]) == k {
      j := 0;
    } else {
      var j' := SelectMember(s[1..], key, k);
      j := j' + 1;
    }
  }

  /**
   * The sorted order is canonical: whatever sequence is sorted by key and agrees
   * with `s` on the elements of every key is `Sort(s, key)`.
   */
  lemma SortCanonical<T>(r: seq<T>, s: seq<T>, key: T -> Key)
    requires SortedBy(r, key)
    requires forall k :: Select(r, key, k) == Select(s, key, k)
    ensures r == Sort(s, key)
  {
    forall k ensures Select(r, key, k) == Select(Sort(s, key), key, k) {
      SortStable(s, key, k);
    }
    SortedUnique(r, Sort(s, key), key);
  }
}
