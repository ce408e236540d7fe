/** The orderings the system sorts by: SQL `ORDER BY` over one or more columns, and the
    client's `Array.prototype.sort` with comparators that chain `localeCompare` calls.
    Both are modelled as a sort by a composite key compared component by component. */
module Order {

  /** One component of a sort key. `Nil` is a SQL NULL, which PostgreSQL places after every
      other value in ascending order; `Num` and `Text` are never compared with each other. */
  datatype KeyPart = Num(n: int) | Text(s: string) | Nil

  /** Lexicographic order of strings by character code, a shorter prefix first. */
  predicate StrLe(a: string, b: string)
    decreases |a|
  {
    a == [] || (b != [] && (a[0] < b[0] || (a[0] == b[0] && StrLe(a[1..], b[1..]))))
  }

  lemma {:induction false} StrLeTotal(a: string, b: string)
    ensures StrLe(a, b) || StrLe(b, a)
    decreases |a|
  {
    if a != [] && b != [] && a[0] == b[0] {
      StrLeTotal(a[1..], b[1..]);
    }
  }

  lemma {:induction false} StrLeRefl(a: string)
    ensures StrLe(a, a)
    decreases |a|
  {
    if a != [] {
      StrLeRefl(a[1..]);
    }
  }

  lemma {:induction false} StrLeTrans(a: string, b: string, c: string)
    requires StrLe(a, b) && StrLe(b, c)
    ensures StrLe(a, c)
    decreases |a|
  {
    if a != [] && a[0] == b[0] && b[0] == c[0] {
      StrLeTrans(a[1..], b[1..], c[1..]);
    }
  }

  lemma {:induction false} StrLeAntisym(a: string, b: string)
    requires StrLe(a, b) && StrLe(b, a)
    ensures a == b
    decreases |a|
  {
    if a != [] {
      StrLeAntisym(a[1..], b[1..]);
      assert a == [a[0]] + a[1..] && b == [b[0]] + b[1..];
    }
  }

  function Rank(p: KeyPart): nat {
    match p
    case Num(_) => 0
    case Text(_) => 1
    case Nil => 2
  }

  predicate PartLe(p: KeyPart, q: KeyPart) {
    if Rank(p) != Rank(q) then Rank(p) < Rank(q)
    else match p
      case Num(x) => x <= q.n
      case Text(s) => StrLe(s, q.s)
      case Nil => true
  }

  lemma PartLeTotal(p: KeyPart, q: KeyPart)
    ensures PartLe(p, q) || PartLe(q, p)
  {
    if p.Text? && q.Text? {
      StrLeTotal(p.s, q.s);
    }
  }

  lemma PartLeTrans(p: KeyPart, q: KeyPart, r: KeyPart)
    requires PartLe(p, q) && PartLe(q, r)
    ensures PartLe(p, r)
  {
    if p.Text? && q.Text? && r.Text? {
      StrLeTrans(p.s, q.s, r.s);
    }
  }

  lemma PartLeAntisym(p: KeyPart, q: KeyPart)
    requires PartLe(p, q) && PartLe(q, p)
    ensures p == q
  {
    if p.Text? && q.Text? {
      StrLeAntisym(p.s, q.s);
    }
  }

  /** Composite keys compare by their first differing component, as `a || b || c` does with
      comparator results and as a multi-column `ORDER BY` does. */
  predicate KeyLe(a: seq<KeyPart>, b: seq<KeyPart>)
    decreases |a|
  {
    a == [] || (b != [] && (if a[0] == b[0] then KeyLe(a[1..], b[1..]) else PartLe(a[0], b[0])))
  }

  lemma {:induction false} KeyLeTotal(a: seq<KeyPart>, b: seq<KeyPart>)
    ensures KeyLe(a, b) || KeyLe(b, a)
    decreases |a|
  {
    if a != [] && b != [] {
      if a[0] == b[0] {
        KeyLeTotal(a[1..], b[1..]);
      } else {
        PartLeTotal(a[0], b[0]);
      }
    }
  }

  lemma {:induction false} KeyLeTrans(a: seq<KeyPart>, b: seq<KeyPart>, c: seq<KeyPart>)
    requires KeyLe(a, b) && KeyLe(b, c)
    ensures KeyLe(a, c)
    decreases |a|
  {
    if a != [] {
      if a[0] == b[0] && b[0] == c[0] {
        KeyLeTrans(a[1..], b[1..], c[1..]);
      } else if a[0] == b[0] {
        assert PartLe(b[0], c[0]);
      } else if b[0] == c[0] {
        assert PartLe(a[0], b[0]);
      } else {
        PartLeTrans(a[0], b[0], c[0]);
        if a[0] == c[0] {
          PartLeAntisym(a[0], b[0]);
        }
      }
    }
  }

  lemma {:induction false} KeyLeAntisym(a: seq<KeyPart>, b: seq<KeyPart>)
    requires |a| == |b| && KeyLe(a, b) && KeyLe(b, a)
    ensures a == b
    decreases |a|
  {
    if a != [] {
      if a[0] == b[0] {
        KeyLeAntisym(a[1..], b[1..]);
        assert a == [a[0]] + a[1..] && b == [b[0]] + b[1..];
      } else {
        PartLeAntisym(a[0], b[0]);
      }
    }
  }

  /** A one-part text key orders its strings lexicographically. */
  lemma TextKeyLe(a: string, b: string)
    requires KeyLe([Text(a)], [Text(b)])
    ensures StrLe(a, b)
  {
    if a == b {
      StrLeRefl(a);
    } else {
      assert PartLe(Text(a), Text(b));
    }
  }

  /** Keys that start with text compare by that text first, and by the rest on a tie. */
  lemma TextKeyHead(x: string, xs: seq<KeyPart>, y: string, ys: seq<KeyPart>)
    requires KeyLe([Text(x)] + xs, [Text(y)] + ys)
    ensures StrLe(x, y) && (x == y ==> KeyLe(xs, ys))
  {
    var a, b := [Text(x)] + xs, [Text(y)] + ys;
    assert a[0] == Text(x) && b[0] == Text(y) && a[1..] == xs && b[1..] == ys;
    if x == y {
      StrLeRefl(x);
    } else {
      assert PartLe(Text(x), Text(y));
    }
  }

  /** A two-part text key orders by its first part, then by its second. */
  lemma TextKey2(a1: string, a2: string, b1: string, b2: string)
    requires KeyLe([Text(a1), Text(a2)], [Text(b1), Text(b2)])
    ensures StrLe(a1, b1) && (a1 == b1 ==> StrLe(a2, b2))
  {
    assert [Text(a1), Text(a2)] == [Text(a1)] + [Text(a2)];
    assert [Text(b1), Text(b2)] == [Text(b1)] + [Text(b2)];
    TextKeyHead(a1, [Text(a2)], b1, [Text(b2)]);
    if a1 == b1 {
      TextKeyLe(a2, b2);
    }
  }

  /** A three-part text key orders by its parts in turn. */
  lemma TextKey3(a1: string, a2: string, a3: string, b1: string, b2: string, b3: string)
    requires KeyLe([Text(a1), Text(a2), Text(a3)], [Text(b1), Text(b2), Text(b3)])
    ensures StrLe(a1, b1) && (a1 == b1 ==> StrLe(a2, b2)) && (a1 == b1 && a2 == b2 ==> StrLe(a3, b3))
  {
    assert [Text(a1), Text(a2), Text(a3)] == [Text(a1)] + [Text(a2), Text(a3)];
    assert [Text(b1), Text(b2), Text(b3)] == [Text(b1)] + [Text(b2), Text(b3)];
    TextKeyHead(a1, [Text(a2), Text(a3)], b1, [Text(b2), Text(b3)]);
    if a1 == b1 {
      TextKey2(a2, a3, b2, b3);
    }
  }

  /** `s` is in ascending order of `key`. */
  predicate Sorted<T>(s: seq<T>, key: T -> seq<KeyPart>) {
    forall i, j :: 0 <= i < j < |s| ==> KeyLe(key(s[i]), key(s[j]))
  }

  /** Puts `x` before the first element whose key is not smaller, keeping earlier equal keys first. */
  function Insert<T(==)>(x: T, s: seq<T>, key: T -> seq<KeyPart>): (r: seq<T>)
    ensures multiset(r) == multiset(s) + multiset{x}
  {
    if s == [] then [x]
    else if KeyLe(key(x), key(s[0])) then [x] + s
    else
      assert s == [s[0]] + s[1..];
      [s[0]] + Insert(x, s[1..], key)
  }

  lemma {:induction false} InsertSorted<T>(x: T, s: seq<T>, key: T -> seq<KeyPart>)
    requires Sorted(s, key)
    ensures Sorted(Insert(x, s, key), key)
  {
    if s == [] {
    } else if KeyLe(key(x), key(s[0])) {
      forall k | 0 <= k < |s| ensures KeyLe(key(x), key(s[k])) {
        if k > 0 {
          KeyLeTrans(key(x), key(s[0]), key(s[k]));
        }
      }
      SortedCons(x, s, key);
    } else {
      KeyLeTotal(key(x), key(s[0]));
      InsertSorted(x, s[1..], key);
      var t := Insert(x, s[1..], key);
      InsertAbove(x, s, key);
      SortedCons(s[0], t, key);
      assert Insert(x, s, key) == [s[0]] + t;
    }
  }

  /** When `x` goes after the head, the head's key is at most every key of the rest. */
  lemma InsertAbove<T>(x: T, s: seq<T>, key: T -> seq<KeyPart>)
    requires Sorted(s, key) && s != [] && KeyLe(key(s[0]), key(x))
    ensures forall k :: 0 <= k < |Insert(x, s[1..], key)| ==> KeyLe(key(s[0]), key(Insert(x, s[1..], key)[k]))
  {
    var t := Insert(x, s[1..], key);
    forall k | 0 <= k < |t| ensures KeyLe(key(s[0]), key(t[k])) {
      assert t[k] in multiset(t);
      if t[k] != x {
        assert t[k] in multiset(s[1..]);
        var m :| 0 <= m < |s[1..]| && s[1..][m] == t[k];
        assert s[m + 1] == t[k];
      }
    }
  }

  /** A head whose key is at most every key of a sorted tail keeps the sequence sorted. */
  lemma SortedCons<T>(h: T, t: seq<T>, key: T -> seq<KeyPart>)
    requires Sorted(t, key)
    requires forall k :: 0 <= k < |t| ==> KeyLe(key(h), key(t[k]))
    ensures Sorted([h] + t, key)
  {
    var r := [h] + t;
    forall i, j | 0 <= i < j < |r| ensures KeyLe(key(r[i]), key(r[j])) {
      if i == 0 {
        assert r[j] == t[j - 1];
      } else {
        assert r[i] == t[i - 1] && r[j] == t[j - 1];
      }
    }
  }

  /** Stable insertion sort by `key`: the result is ascending and holds the same elements,
      each as many times as the input. */
  function Sort<T(==)>(s: seq<T>, key: T -> seq<KeyPart>): (r: seq<T>)
    ensures multiset(r) == multiset(s)
    ensures |r| == |s|
    ensures Sorted(r, key)
  {
    if s == [] then []
    else
      var rest := Sort(s[1..], key);
      InsertSorted(s[0], rest, key);
      MultisetCons(s);
      var r := Insert(s[0], rest, key);
      assert |r| == |multiset(r)|;
      r
  }

  lemma MultisetCons<T>(s: seq<T>)
    requires s != []
    ensures multiset(s) == multiset{s[0]} + multiset(s[1..])
  {
    assert s == [s[0]] + s[1..];
  }

  /** An element occurs in a sorted copy exactly when it occurs in the original. */
  lemma SortMembers<T>(s: seq<T>, key: T -> seq<KeyPart>, x: T)
    ensures x in Sort(s, key) <==> x in s
  {
    assert x in multiset(Sort(s, key)) <==> x in multiset(s);
  }
}
