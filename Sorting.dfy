/** The natural order of Java strings (`String.compareTo`), the sorting that
    the stream pipelines perform with `.sorted()`, and the key-ordered entry
    list of a `java.util.TreeMap<String, String>`. */
module Sorting {
  import opened Results

  // ---------------------------------------------------------------------
  // The order of String.compareTo
  // ---------------------------------------------------------------------

  /** `a.compareTo(b) <= 0`: character by character, a proper prefix first.
      Characters are compared by code point; Java compares UTF-16 code
      units, which gives the same order while no character lies above
      U+FFFF. */
  predicate Le(a: string, b: string)
    decreases |a|
  {
    a == [] || (b != [] && (a[0] < b[0] || (a[0] == b[0] && Le(a[1..], b[1..]))))
  }

  lemma {:induction false} LeReflexive(a: string)
    ensures Le(a, a)
    decreases |a|
  {
    if a != [] {
      LeReflexive(a[1..]);
    }
  }

  lemma {:induction false} LeTotal(a: string, b: string)
    ensures Le(a, b) || Le(b, a)
    decreases |a|
  {
    if a != [] && b != [] && a[0] == b[0] {
      LeTotal(a[1..], b[1..]);
    }
  }

  lemma {:induction false} LeAntisymmetric(a: string, b: string)
    requires Le(a, b) && Le(b, a)
    ensures a == b
    decreases |a|
  {
    if a != [] {
      LeAntisymmetric(a[1..], b[1..]);
      assert a == [a[0]] + a[1..] && b == [b[0]] + b[1..];
    }
  }

  lemma {:induction false} LeTransitive(a: string, b: string, c: string)
    requires Le(a, b) && Le(b, c)
    ensures Le(a, c)
    decreases |a|
  {
    if a != [] && a[0] == b[0] && b[0] == c[0] {
      LeTransitive(a[1..], b[1..], c[1..]);
    }
  }

  // ---------------------------------------------------------------------
  // Sorting (stream.sorted() on strings)
  // ---------------------------------------------------------------------

  predicate Sorted(s: seq<string>) {
    forall i, j :: 0 <= i < j < |s| ==> Le(s[i], s[j])
  }

  lemma ConsSorted(h: string, t: seq<string>)
    requires Sorted(t)
    requires forall y :: y in t ==> Le(h, y)
    ensures Sorted([h] + t)
  {
    var s := [h] + t;
    forall i, j | 0 <= i < j < |s| ensures Le(s[i], s[j]) {
      if i > 0 {
        assert s[i] == t[i - 1] && s[j] == t[j - 1];
      } else {
        assert s[j] == t[j - 1];
      }
    }
  }

  function Insert(x: string, s: seq<string>): (r: seq<string>)
    requires Sorted(s)
    ensures Sorted(r)
    ensures multiset(r) == multiset(s) + multiset{x}
    decreases |s|
  {
    if s == [] then [x]
    else if Le(x, s[0]) then
      InsertBefore(x, s);
      [x] + s
    else
      SortedTail(s);
      var rest := Insert(x, s[1..]);
      InsertBehind(x, s, rest);
      [s[0]] + rest
  }

  lemma InsertBefore(x: string, s: seq<string>)
    requires Sorted(s) && s != [] && Le(x, s[0])
    ensures Sorted([x] + s)
  {
    forall y | y in s ensures Le(x, y) {
      var j :| 0 <= j < |s| && s[j] == y;
      if j > 0 { LeTransitive(x, s[0], y); }
    }
    ConsSorted(x, s);
  }

  lemma InsertBehind(x: string, s: seq<string>, rest: seq<string>)
    requires Sorted(s) && s != [] && !Le(x, s[0])
    requires Sorted(rest) && multiset(rest) == multiset(s[1..]) + multiset{x}
    ensures Sorted([s[0]] + rest)
    ensures multiset([s[0]] + rest) == multiset(s) + multiset{x}
  {
    LeTotal(x, s[0]);
    forall y | y in rest ensures Le(s[0], y) {
      assert y in multiset(rest);
      if y != x {
        assert y in multiset(s[1..]);
        var j :| 0 <= j < |s[1..]| && s[1..][j] == y;
        assert s[j + 1] == y;
      }
    }
    ConsSorted(s[0], rest);
    assert s == [s[0]] + s[1..];
  }

  /** `stream.sorted()`: the elements in ascending order. */
  function Sort(s: seq<string>): (r: seq<string>)
    ensures Sorted(r)
    ensures multiset(r) == multiset(s)
    decreases |s|
  {
    if s == [] then []
    else
      assert s == [s[0]] + s[1..];
      Insert(s[0], Sort(s[1..]))
  }

  lemma MultisetTail<T>(s: seq<T>)
    requires s != []
    ensures multiset(s[1..]) == multiset(s) - multiset{s[0]}
  {
    assert s == [s[0]] + s[1..];
  }

  lemma HeadIsLeast(s: seq<string>, y: string)
    requires Sorted(s) && y in s
    ensures Le(s[0], y)
  {
    var j :| 0 <= j < |s| && s[j] == y;
    if j == 0 { LeReflexive(y); }
  }

  lemma SortedTail(s: seq<string>)
    requires Sorted(s) && s != []
    ensures Sorted(s[1..])
  {
    forall i, j | 0 <= i < j < |s| - 1 ensures Le(s[1..][i], s[1..][j]) {
      assert s[1..][i] == s[i + 1] && s[1..][j] == s[j + 1];
    }
  }

  /** There is only one ascending arrangement of a multiset of strings, so
      any stable or unstable sort gives the result of `Sort`. */
  lemma {:induction false} SortedUnique(a: seq<string>, b: seq<string>)
    requires Sorted(a) && Sorted(b) && multiset(a) == multiset(b)
    ensures a == b
    decreases |a|
  {
    if a == [] {
      assert |b| == |multiset(b)| == 0;
    } else {
      assert a[0] in multiset(b);
      SameHead(a, b);
      MultisetTail(a);
      MultisetTail(b);
      SortedTail(a);
      SortedTail(b);
      SortedUnique(a[1..], b[1..]);
      assert a == [a[0]] + a[1..] && b == [b[0]] + b[1..];
    }
  }

  lemma SameHead(a: seq<string>, b: seq<string>)
    requires Sorted(a) && Sorted(b) && multiset(a) == multiset(b) && a != [] && b != []
    ensures a[0] == b[0]
  {
    assert a[0] in multiset(b);
    assert b[0] in multiset(a);
    HeadIsLeast(a, b[0]);
    HeadIsLeast(b, a[0]);
    LeAntisymmetric(a[0], b[0]);
  }

  /** Sorting forgets the original order: permuted inputs sort alike. */
  lemma SortIgnoresOrder(a: seq<string>, b: seq<string>)
    requires multiset(a) == multiset(b)
    ensures Sort(a) == Sort(b)
  {
    SortedUnique(Sort(a), Sort(b));
  }

  // ---------------------------------------------------------------------
  // Mapping (stream.map)
  // ---------------------------------------------------------------------

  function MapSeq<A, B>(f: A -> B, s: seq<A>): (r: seq<B>)
    ensures |r| == |s|
    ensures forall i :: 0 <= i < |s| ==> r[i] == f(s[i])
  {
    seq(|s|, i requires 0 <= i < |s| => f(s[i]))
  }

  lemma MapConcat<A, B>(f: A -> B, a: seq<A>, b: seq<A>)
    ensures MapSeq(f, a + b) == MapSeq(f, a) + MapSeq(f, b)
  {
  }

  /** Mapping a permutation gives a permutation of the mapped elements. */
  lemma {:induction false} MapPermutation<A, B>(f: A -> B, a: seq<A>, b: seq<A>)
    requires multiset(a) == multiset(b)
    ensures multiset(MapSeq(f, a)) == multiset(MapSeq(f, b))
    decreases |a|
  {
    if a == [] {
      assert |b| == |multiset(b)| == 0;
    } else {
      var x := a[0];
      var k := IndexOf(b, x);
      var front, back := RemoveAt(b, k);
      MultisetTail(a);
      MapPermutation(f, a[1..], front + back);
      MapHead(f, a);
      MapAround(f, front, x, back);
    }
  }

  lemma MapHead<A, B>(f: A -> B, a: seq<A>)
    requires a != []
    ensures multiset(MapSeq(f, a)) == multiset{f(a[0])} + multiset(MapSeq(f, a[1..]))
  {
    assert MapSeq(f, a) == [f(a[0])] + MapSeq(f, a[1..]);
  }

  lemma IndexOf<A>(b: seq<A>, x: A) returns (k: nat)
    requires x in multiset(b)
    ensures k < |b| && b[k] == x
  {
    k :| 0 <= k < |b| && b[k] == x;
  }

  /** The elements either side of position `k`. */
  lemma RemoveAt<A>(b: seq<A>, k: nat) returns (front: seq<A>, back: seq<A>)
    requires k < |b|
    ensures b == front + [b[k]] + back
    ensures multiset(front + back) == multiset(b) - multiset{b[k]}
  {
    front, back := b[..k], b[k + 1..];
    assert b == front + [b[k]] + back;
  }

  lemma MapAround<A, B>(f: A -> B, front: seq<A>, x: A, back: seq<A>)
    ensures multiset(MapSeq(f, front + [x] + back)) == multiset(MapSeq(f, front + back)) + multiset{f(x)}
  {
    var mf, mb := MapSeq(f, front), MapSeq(f, back);
    MapConcat(f, front, back);
    assert MapSeq(f, front + [x] + back) == mf + [f(x)] + mb;
    assert multiset(mf + [f(x)] + mb) == multiset(mf) + multiset{f(x)} + multiset(mb);
  }

  // ---------------------------------------------------------------------
  // TreeMap<String, String>: entries kept in ascending key order
  // ---------------------------------------------------------------------

  type Entries = seq<(string, string)>

  predicate KeysAscending(m: Entries) {
    forall i, j :: 0 <= i < j < |m| ==> Le(m[i].0, m[j].0) && m[i].0 != m[j].0
  }

  function Keys(m: Entries): set<string> {
    set i | 0 <= i < |m| :: m[i].0
  }

  /** `map.get(key)`. */
  function Lookup(m: Entries, key: string): Option<string>
    decreases |m|
  {
    if m == [] then None
    else if m[0].0 == key then Some(m[0].1)
    else Lookup(m[1..], key)
  }

  /** `map.put(key, value)`: the key gets the value, every other key keeps
      its own, and the entries stay in ascending key order. */
  function Put(m: Entries, key: string, value: string): (r: Entries)
    requires KeysAscending(m)
    ensures KeysAscending(r)
    ensures Keys(r) == Keys(m) + {key}
    ensures Lookup(r, key) == Some(value)
    ensures forall k :: k != key ==> Lookup(r, k) == Lookup(m, k)
    decreases |m|
  {
    if m == [] then
      assert Keys([(key, value)]) == {key} by { KeysCons((key, value), []); }
      [(key, value)]
    else if m[0].0 == key then
      PutReplacing(m, key, value);
      [(key, value)] + m[1..]
    else if Le(key, m[0].0) then
      PutBefore(m, key, value);
      [(key, value)] + m
    else
      AscendingTail(m);
      var rest := Put(m[1..], key, value);
      PutBehind(m, key, value, rest);
      [m[0]] + rest
  }

  lemma KeysCons(e: (string, string), m: Entries)
    ensures Keys([e] + m) == {e.0} + Keys(m)
  {
    var r := [e] + m;
    forall y | y in Keys(r) ensures y in {e.0} + Keys(m) {
      var i :| 0 <= i < |r| && r[i].0 == y;
      if i > 0 { assert m[i - 1].0 == y; }
    }
    forall y | y in Keys(m) ensures y in Keys(r) {
      var i :| 0 <= i < |m| && m[i].0 == y;
      assert r[i + 1].0 == y;
    }
    assert r[0].0 == e.0;
  }

  lemma PutReplacing(m: Entries, key: string, value: string)
    requires KeysAscending(m) && m != [] && m[0].0 == key
    ensures var r := [(key, value)] + m[1..];
      && KeysAscending(r)
      && Keys(r) == Keys(m) + {key}
      && Lookup(r, key) == Some(value)
      && forall k :: k != key ==> Lookup(r, k) == Lookup(m, k)
  {
    var r := [(key, value)] + m[1..];
    assert r[1..] == m[1..];
    forall i, j | 0 <= i < j < |r| ensures Le(r[i].0, r[j].0) && r[i].0 != r[j].0 {
      assert r[i].0 == m[i].0 && r[j] == m[j];
    }
    KeysCons((key, value), m[1..]);
    KeysCons(m[0], m[1..]);
    assert m == [m[0]] + m[1..];
  }

  lemma PutBefore(m: Entries, key: string, value: string)
    requires KeysAscending(m) && m != [] && m[0].0 != key && Le(key, m[0].0)
    ensures var r := [(key, value)] + m;
      && KeysAscending(r)
      && Keys(r) == Keys(m) + {key}
      && Lookup(r, key) == Some(value)
      && forall k :: k != key ==> Lookup(r, k) == Lookup(m, k)
  {
    var r := [(key, value)] + m;
    assert r[1..] == m;
    forall i, j | 0 <= i < j < |r| ensures Le(r[i].0, r[j].0) && r[i].0 != r[j].0 {
      if i == 0 {
        var y := m[j - 1].0;
        if j > 1 {
          LeTransitive(key, m[0].0, y);
          if key == y { LeAntisymmetric(key, m[0].0); }
        }
      } else {
        assert r[i] == m[i - 1] && r[j] == m[j - 1];
      }
    }
    KeysCons((key, value), m);
  }

  lemma PutBehind(m: Entries, key: string, value: string, rest: Entries)
    requires KeysAscending(m) && m != [] && !Le(key, m[0].0)
    requires KeysAscending(rest)
    requires Keys(rest) == Keys(m[1..]) + {key}
    requires Lookup(rest, key) == Some(value)
    requires forall k :: k != key ==> Lookup(rest, k) == Lookup(m[1..], k)
    ensures var r := [m[0]] + rest;
      && KeysAscending(r)
      && Keys(r) == Keys(m) + {key}
      && Lookup(r, key) == Some(value)
      && forall k :: k != key ==> Lookup(r, k) == Lookup(m, k)
  {
    LeTotal(key, m[0].0);
    var r := [m[0]] + rest;
    assert r[1..] == rest;
    forall i, j | 0 <= i < j < |r| ensures Le(r[i].0, r[j].0) && r[i].0 != r[j].0 {
      if i == 0 {
        var y := rest[j - 1].0;
        assert y in Keys(rest);
        if y != key {
          var l :| 0 <= l < |m[1..]| && m[1..][l].0 == y;
          assert m[l + 1].0 == y;
        }
      } else {
        assert r[i] == rest[i - 1] && r[j] == rest[j - 1];
      }
    }
    KeysCons(m[0], rest);
    KeysCons(m[0], m[1..]);
    assert m == [m[0]] + m[1..];
  }

  lemma AscendingTail(m: Entries)
    requires KeysAscending(m) && m != []
    ensures KeysAscending(m[1..])
  {
    forall i, j | 0 <= i < j < |m| - 1 ensures Le(m[1..][i].0, m[1..][j].0) && m[1..][i].0 != m[1..][j].0 {
      assert m[1..][i] == m[i + 1] && m[1..][j] == m[j + 1];
    }
  }

  lemma {:induction false} LookupKeys(m: Entries, key: string)
    ensures Lookup(m, key).Some? <==> key in Keys(m)
    decreases |m|
  {
    if m != [] {
      LookupKeys(m[1..], key);
      assert Keys(m) == {m[0].0} + Keys(m[1..]) by {
        forall y | y in Keys(m) ensures y in {m[0].0} + Keys(m[1..]) {
          var i :| 0 <= i < |m| && m[i].0 == y;
          if i > 0 { assert m[1..][i - 1].0 == y; }
        }
        forall y | y in Keys(m[1..]) ensures y in Keys(m) {
          var i :| 0 <= i < |m[1..]| && m[1..][i].0 == y;
          assert m[i + 1].0 == y;
        }
      }
    }
  }

  /** In ascending order the first key is the least and occurs only once. */
  lemma FirstKeyLeast(m: Entries, key: string)
    requires KeysAscending(m) && m != [] && key in Keys(m)
    ensures Le(m[0].0, key)
    ensures key != m[0].0 <==> key in Keys(m[1..])
  {
    var i :| 0 <= i < |m| && m[i].0 == key;
    if i == 0 {
      LeReflexive(key);
      assert key !in Keys(m[1..]) by {
        forall j | 0 <= j < |m| - 1 ensures m[1..][j].0 != key {
          assert m[1..][j] == m[j + 1];
        }
      }
    } else {
      assert m[1..][i - 1].0 == key;
    }
  }

  /** A TreeMap is determined by what it maps: two ascending entry lists that
      agree on every lookup are the same list. */
  lemma {:induction false} EntriesUnique(a: Entries, b: Entries)
    requires KeysAscending(a) && KeysAscending(b)
    requires forall key :: Lookup(a, key) == Lookup(b, key)
    ensures a == b
    decreases |a|
  {
    assert b != [] ==> Lookup(a, b[0].0) == Lookup(b, b[0].0);
    assert a != [] ==> Lookup(a, a[0].0) == Lookup(b, a[0].0);
    if a != [] && b != [] {
      var x, y := a[0].0, b[0].0;
      LookupKeys(a, y);
      LookupKeys(b, x);
      FirstKeyLeast(a, y);
      FirstKeyLeast(b, x);
      LeAntisymmetric(x, y);
      AscendingTail(a);
      AscendingTail(b);
      forall key ensures Lookup(a[1..], key) == Lookup(b[1..], key) {
        if key == x {
          LookupKeys(a, x);
          FirstKeyLeast(a, x);
          LookupKeys(a[1..], key);
          LookupKeys(b[1..], key);
        } else {
          assert Lookup(a, key) == Lookup(a[1..], key);
          assert Lookup(b, key) == Lookup(b[1..], key);
        }
      }
      EntriesUnique(a[1..], b[1..]);
      assert a == [a[0]] + a[1..] && b == [b[0]] + b[1..];
    }
  }
}
