/**
 * The part of Go's net/url that builds the query of the connection string:
 * `url.Values`, its `Add` and `Encode` methods, and `QueryEscape`.
 *
 * A `url.Values` is a map from a key to the list of its values. It is modelled
 * here as the sequence of (key, value) pairs in the order they were added,
 * which determines the map: `ValuesOf` gives a key's values in that order.
 * `Encode` orders the pairs by key (values of one key stay in the order they
 * were added), escapes keys and values, and joins them as `k=v` with `&`.
 */
module Query {

  type Values = seq<(string, string)>

  /**
   * The map lookup `v[key]`: every value stored under `key`, in the order
   * they were added (`Values.Get` would return only the first of them).
   */
  function ValuesOf(v: Values, key: string): seq<string>
    decreases |v|
  {
    if v == [] then []
    else ValuesOf(v[..|v| - 1], key) + (if v[|v| - 1].0 == key then [v[|v| - 1].1] else [])
  }

  /** `v.Add(key, value)`: appends `value` to the values of `key`; every other key keeps its values. */
  function Add(v: Values, key: string, value: string): (r: Values)
    ensures ValuesOf(r, key) == ValuesOf(v, key) + [value]
    ensures forall k :: k != key ==> ValuesOf(r, k) == ValuesOf(v, k)
  {
    var r := v + [(key, value)];
    assert r[..|r| - 1] == v;
    r
  }

  lemma {:induction false} ValuesOfAppend(a: Values, b: Values, key: string)
    ensures ValuesOf(a + b, key) == ValuesOf(a, key) + ValuesOf(b, key)
    decreases |b|
  {
    if b == [] {
      assert a + b == a;
    } else {
      var ab := a + b;
      assert ab[..|ab| - 1] == a + b[..|b| - 1];
      assert ab[|ab| - 1] == b[|b| - 1];
      ValuesOfAppend(a, b[..|b| - 1], key);
    }
  }

  /** Byte-wise (equivalently, for UTF-8, code point by code point) order of Go strings. */
  predicate LessEq(a: string, b: string)
    decreases |a|
  {
    a == [] || (b != [] && (a[0] < b[0] || (a[0] == b[0] && LessEq(a[1..], b[1..]))))
  }

  lemma {:induction false} LessEqTotal(a: string, b: string)
    ensures LessEq(a, b) || LessEq(b, a)
    decreases |a|
  {
    if a != [] && b != [] && a[0] == b[0] {
      LessEqTotal(a[1..], b[1..]);
    }
  }

  lemma {:induction false} LessEqReflexive(a: string)
    ensures LessEq(a, a)
    decreases |a|
  {
    if a != [] {
      LessEqReflexive(a[1..]);
    }
  }

  lemma {:induction false} LessEqAntisymmetric(a: string, b: string)
    requires LessEq(a, b) && LessEq(b, a)
    ensures a == b
    decreases |a|
  {
    if a != [] {
      LessEqAntisymmetric(a[1..], b[1..]);
      assert a == [a[0]] + a[1..] && b == [b[0]] + b[1..];
    }
  }

  lemma {:induction false} LessEqTransitive(a: string, b: string, c: string)
    requires LessEq(a, b) && LessEq(b, c)
    ensures LessEq(a, c)
    decreases |a|
  {
    if a != [] && a[0] == b[0] && b[0] == c[0] {
      LessEqTransitive(a[1..], b[1..], c[1..]);
    }
  }

  /** Each key is at most the key after it. */
  predicate SortedByKey(v: Values)
  {
    forall i :: 0 < i < |v| ==> LessEq(v[i - 1].0, v[i].0)
  }

  /** Places `x` after every pair whose key is at most its own. */
  function Insert(s: Values, x: (string, string)): (r: Values)
    requires SortedByKey(s)
    ensures SortedByKey(r)
    ensures multiset(r) == multiset(s) + multiset{x}
    ensures r[|r| - 1] == x || (s != [] && r[|r| - 1] == s[|s| - 1])
    decreases |s|
  {
    if s == [] then [x]
    else if LessEq(s[|s| - 1].0, x.0) then s + [x]
    else
      var init := s[..|s| - 1];
      assert s == init + [s[|s| - 1]];
      LessEqTotal(s[|s| - 1].0, x.0);
      Insert(init, x) + [s[|s| - 1]]
  }

  /** Inserting `x` adds its value at the end of its own key's values and leaves every other key alone. */
  lemma {:induction false} InsertValuesOf(s: Values, x: (string, string), k: string)
    requires SortedByKey(s)
    ensures ValuesOf(Insert(s, x), k) == ValuesOf(s, k) + ValuesOf([x], k)
    decreases |s|
  {
    if s == [] {
    } else if LessEq(s[|s| - 1].0, x.0) {
      ValuesOfAppend(s, [x], k);
    } else {
      var last := s[|s| - 1];
      var init := s[..|s| - 1];
      assert s == init + [last];
      assert x.0 != last.0 by { LessEqReflexive(x.0); }
      calc {
        ValuesOf(Insert(s, x), k);
        ValuesOf(Insert(init, x) + [last], k);
        { ValuesOfAppend(Insert(init, x), [last], k); }
        ValuesOf(Insert(init, x), k) + ValuesOf([last], k);
        { InsertValuesOf(init, x, k); }
        ValuesOf(init, k) + ValuesOf([x], k) + ValuesOf([last], k);
        { ValuesOfDistinctKeys(x, last, k); }
        ValuesOf(init, k) + ValuesOf([last], k) + ValuesOf([x], k);
        { ValuesOfAppend(init, [last], k); }
        ValuesOf(s, k) + ValuesOf([x], k);
      }
    }
  }

  /** Pairs with different keys contribute to different keys, so their order does not matter to `ValuesOf`. */
  lemma ValuesOfDistinctKeys(x: (string, string), y: (string, string), k: string)
    requires x.0 != y.0
    ensures ValuesOf([x], k) + ValuesOf([y], k) == ValuesOf([y], k) + ValuesOf([x], k)
  {
  }

  /** The pairs ordered by key. */
  function SortByKey(v: Values): (r: Values)
    ensures SortedByKey(r)
    ensures multiset(r) == multiset(v)
    decreases |v|
  {
    if v == [] then []
    else
      assert v == v[..|v| - 1] + [v[|v| - 1]];
      Insert(SortByKey(v[..|v| - 1]), v[|v| - 1])
  }

  /** Sorting keeps the values of each key in the order they were added. */
  lemma {:induction false} SortByKeyValuesOf(v: Values, k: string)
    ensures ValuesOf(SortByKey(v), k) == ValuesOf(v, k)
    decreases |v|
  {
    if v != [] {
      var init, x := v[..|v| - 1], v[|v| - 1];
      assert [x][..0] == [];
      SortByKeyValuesOf(init, k);
      InsertValuesOf(SortByKey(init), x, k);
    }
  }

  /** No key occurs twice. */
  predicate KeysDistinct(v: Values)
  {
    forall i, j :: 0 <= i < j < |v| ==> v[i].0 != v[j].0
  }

  /** Dropping the last pair keeps a list sorted and its keys distinct. */
  lemma DropLast(v: Values)
    requires v != []
    ensures SortedByKey(v) ==> SortedByKey(v[..|v| - 1])
    ensures KeysDistinct(v) ==> KeysDistinct(v[..|v| - 1])
    ensures v == v[..|v| - 1] + [v[|v| - 1]]
    ensures multiset(v[..|v| - 1]) == multiset(v) - multiset{v[|v| - 1]}
  {
  }

  /** In a sorted list every key is at most the last one. */
  lemma {:induction false} SortedLastIsGreatest(v: Values)
    requires SortedByKey(v) && v != []
    ensures forall i :: 0 <= i < |v| ==> LessEq(v[i].0, v[|v| - 1].0)
    decreases |v|
  {
    var last := |v| - 1;
    LessEqReflexive(v[last].0);
    if last > 0 {
      var init := v[..last];
      DropLast(v);
      SortedLastIsGreatest(init);
      forall i | 0 <= i < last
        ensures LessEq(v[i].0, v[last].0)
      {
        assert v[i] == init[i] && v[last - 1] == init[|init| - 1];
        LessEqTransitive(v[i].0, v[last - 1].0, v[last].0);
      }
    }
  }

  /** The last pairs of two sorted arrangements of the same pairs, with no key repeated, are the same. */
  lemma SameLast(a: Values, b: Values)
    requires SortedByKey(a) && SortedByKey(b) && KeysDistinct(a)
    requires multiset(a) == multiset(b) && a != [] && b != []
    ensures a[|a| - 1] == b[|b| - 1]
  {
    var x, y := a[|a| - 1], b[|b| - 1];
    assert y in multiset(a) && x in multiset(b) by { assert x in a && y in b; }
    var i :| 0 <= i < |a| && a[i] == y;
    var j :| 0 <= j < |b| && b[j] == x;
    SortedLastIsGreatest(a);
    SortedLastIsGreatest(b);
    LessEqAntisymmetric(x.0, y.0);
  }

  /** Two sorted arrangements of the same pairs, with no key repeated, are the same list. */
  lemma {:induction false} SortedUnique(a: Values, b: Values)
    requires SortedByKey(a) && SortedByKey(b) && KeysDistinct(a)
    requires multiset(a) == multiset(b)
    ensures a == b
    decreases |a|
  {
    assert |a| == |multiset(a)| == |multiset(b)| == |b|;
    if a != [] {
      SameLast(a, b);
      DropLast(a);
      DropLast(b);
      SortedUnique(a[..|a| - 1], b[..|b| - 1]);
    }
  }

  /** With no key repeated, `SortByKey` gives the one sorted arrangement of the pairs. */
  lemma SortByKeyDetermined(v: Values, s: Values)
    requires SortedByKey(s) && KeysDistinct(s) && multiset(s) == multiset(v)
    ensures SortByKey(v) == s
  {
    SortedUnique(s, SortByKey(v));
  }

  /** Characters `QueryEscape` leaves as they are. */
  predicate Unreserved(c: char)
  {
    ('A' <= c <= 'Z') || ('a' <= c <= 'z') || ('0' <= c <= '9') || c == '-' || c == '_' || c == '.' || c == '~'
  }

  /** The UTF-8 encoding of a character, as Go stores it in a string. */
  function Utf8(c: char): (bytes: seq<nat>)
    ensures 1 <= |bytes| <= 4
    ensures forall i :: 0 <= i < |bytes| ==> bytes[i] < 256
  {
    var n := c as int;
    if n < 0x80 then [n]
    else if n < 0x800 then [0xC0 + n / 0x40, 0x80 + n % 0x40]
    else if n < 0x1_0000 then [0xE0 + n / 0x1000, 0x80 + (n / 0x40) % 0x40, 0x80 + n % 0x40]
    else [0xF0 + n / 0x4_0000, 0x80 + (n / 0x1000) % 0x40, 0x80 + (n / 0x40) % 0x40, 0x80 + n % 0x40]
  }

  function HexDigit(d: nat): (c: char)
    requires d < 16
    ensures Unreserved(c)
  {
    "0123456789ABCDEF"[d]
  }

  /** `%XX` with upper-case hex digits, for each byte. */
  function PercentEncode(bytes: seq<nat>): (s: string)
    requires forall i :: 0 <= i < |bytes| ==> bytes[i] < 256
    ensures |s| == 3 * |bytes|
    ensures bytes != [] ==> s[0] == '%'
    ensures forall i :: 0 <= i < |s| ==> Unreserved(s[i]) || s[i] == '%'
    decreases |bytes|
  {
    if bytes == [] then []
    else ['%', HexDigit(bytes[0] / 16), HexDigit(bytes[0] % 16)] + PercentEncode(bytes[1..])
  }

  /** One character as `QueryEscape` writes it: itself, `+` for a space, otherwise its bytes percent-encoded. */
  function EscapeChar(c: char): (e: string)
    ensures forall i :: 0 <= i < |e| ==> Unreserved(e[i]) || e[i] == '+' || e[i] == '%'
  {
    if Unreserved(c) then [c]
    else if c == ' ' then "+"
    else PercentEncode(Utf8(c))
  }

  /**
   * `url.QueryEscape`. Its result holds only unreserved characters, `+` and
   * `%`, so never the `=` and `&` that `Encode` puts between keys and values.
   */
  function QueryEscape(s: string): (r: string)
    ensures |r| >= |s|
    ensures forall i :: 0 <= i < |r| ==> Unreserved(r[i]) || r[i] == '+' || r[i] == '%'
    decreases |s|
  {
    if s == [] then [] else EscapeChar(s[0]) + QueryEscape(s[1..])
  }

  /** Every character of the string is unreserved, so `QueryEscape` keeps it as it is. */
  predicate AllUnreserved(s: string)
  {
    forall c | c in s :: Unreserved(c)
  }

  /** `QueryEscape` changes exactly the strings that hold a character outside the unreserved set. */
  lemma {:induction false} QueryEscapeIdentity(s: string)
    ensures QueryEscape(s) == s <==> AllUnreserved(s)
    decreases |s|
  {
    if s != [] {
      QueryEscapeIdentity(s[1..]);
      var e := EscapeChar(s[0]);
      assert QueryEscape(s) == e + QueryEscape(s[1..]);
      if Unreserved(s[0]) {
        assert e == [s[0]];
        assert s == [s[0]] + s[1..];
        if QueryEscape(s) == s {
          assert QueryEscape(s[1..]) == QueryEscape(s)[1..];
        }
        assert AllUnreserved(s) <==> AllUnreserved(s[1..]);
      } else if s[0] == ' ' {
        assert QueryEscape(s)[0] == '+' != s[0];
      } else {
        assert |e| >= 3;
        assert |QueryEscape(s)| > |s|;
      }
    }
  }

  /** One encoded pair, `key=value`. */
  function EncodePair(p: (string, string)): string
  {
    QueryEscape(p.0) + "=" + QueryEscape(p.1)
  }

  /** The encoded pairs, separated by `&`. */
  function Join(pairs: Values): string
    decreases |pairs|
  {
    if pairs == [] then ""
    else if |pairs| == 1 then EncodePair(pairs[0])
    else EncodePair(pairs[0]) + "&" + Join(pairs[1..])
  }

  /**
   * `v.Encode()`: the pairs in key order, each key's values in the order they
   * were added (`SortByKeyValuesOf`), escaped and joined.
   */
  function Encode(v: Values): (s: string)
    ensures s == "" <==> v == []
    ensures forall w :: SortedByKey(w) && KeysDistinct(w) && multiset(w) == multiset(v) ==> s == Join(w)
  {
    var sorted := SortByKey(v);
    assert |sorted| == |multiset(sorted)| == |multiset(v)| == |v|;
    assert sorted != [] ==> |EncodePair(sorted[0])| > 0;
    assert forall w | SortedByKey(w) && KeysDistinct(w) && multiset(w) == multiset(v) :: sorted == w by {
      forall w | SortedByKey(w) && KeysDistinct(w) && multiset(w) == multiset(v) {
        SortByKeyDetermined(v, w);
      }
    }
    Join(sorted)
  }
}
