/**
 * The pieces of PHP's runtime that the response decoders rely on:
 * `empty()` on strings, `explode`, the `(int)` cast of a string,
 * assignment into an ordered array, and `array_combine`.
 */
module Php {
  import opened Results

  // ---------------------------------------------------------------------
  // empty()
  // ---------------------------------------------------------------------

  /** `empty($s)` (equally `!$s`) for a string: only "" and "0" are falsy. */
  predicate IsEmpty(s: string) {
    s == "" || s == "0"
  }

  // ---------------------------------------------------------------------
  // explode / implode with a one-character separator
  // ---------------------------------------------------------------------

  /** `implode($sep, $parts)`: the parts joined by the separator. */
  function Implode(sep: char, parts: seq<string>): string
    requires |parts| >= 1
    decreases |parts|
  {
    if |parts| == 1 then parts[0] else parts[0] + [sep] + Implode(sep, parts[1..])
  }

  /**
   * `explode($sep, $s)`: the pieces between separators. There is always
   * at least one piece (the empty string yields [""]), and no piece
   * contains the separator.
   */
  function Explode(sep: char, s: string): (parts: seq<string>)
    ensures |parts| >= 1
    ensures forall i :: 0 <= i < |parts| ==> sep !in parts[i]
    decreases |s|
  {
    if s == [] then [""]
    else
      var rest := Explode(sep, s[1..]);
      if s[0] == sep then [""] + rest
      else [[s[0]] + rest[0]] + rest[1..]
  }

  /** Joining a first piece to the rest puts one separator between them. */
  lemma ImplodeCons(sep: char, p: string, parts: seq<string>)
    requires |parts| >= 1
    ensures Implode(sep, [p] + parts) == p + [sep] + Implode(sep, parts)
  {
    assert ([p] + parts)[1..] == parts;
  }

  /** Two pieces join with one separator between them. */
  lemma ImplodeTwo(sep: char, a: string, b: string)
    ensures Implode(sep, [a, b]) == a + [sep] + b
  {
    ImplodeCons(sep, a, [b]);
    assert [a] + [b] == [a, b];
  }

  /** Three pieces join with a separator between each two. */
  lemma ImplodeThree(sep: char, a: string, b: string, c: string)
    ensures Implode(sep, [a, b, c]) == a + [sep] + b + [sep] + c
  {
    ImplodeCons(sep, a, [b, c]);
    ImplodeTwo(sep, b, c);
    assert [a] + [b, c] == [a, b, c];
  }

  /** Gluing a character to the front of the first piece puts it at the front of the join. */
  lemma ImplodeGlue(sep: char, c: char, parts: seq<string>)
    requires |parts| >= 1
    ensures Implode(sep, [[c] + parts[0]] + parts[1..]) == [c] + Implode(sep, parts)
  {
    if |parts| > 1 {
      var x := Implode(sep, parts[1..]);
      ImplodeCons(sep, [c] + parts[0], parts[1..]);
      ImplodeCons(sep, parts[0], parts[1..]);
      assert parts == [parts[0]] + parts[1..];
      assert [c] + parts[0] + [sep] + x == [c] + (parts[0] + [sep] + x);
    }
  }

  /** Joining the pieces back gives the original string. */
  lemma {:induction false} ImplodeExplode(sep: char, s: string)
    ensures Implode(sep, Explode(sep, s)) == s
    decreases |s|
  {
    if s != [] {
      var rest := Explode(sep, s[1..]);
      ImplodeExplode(sep, s[1..]);
      if s[0] == sep {
        ImplodeCons(sep, "", rest);
      } else {
        ImplodeGlue(sep, s[0], rest);
      }
      assert s == [s[0]] + s[1..];
    }
  }

  /** Splitting a string whose first piece is `p` yields `p` glued to the first piece of the rest. */
  lemma {:induction false} ExplodeFront(sep: char, p: string, tail: string)
    requires sep !in p
    ensures Explode(sep, p + tail) == [p + Explode(sep, tail)[0]] + Explode(sep, tail)[1..]
    decreases |p|
  {
    if p != [] {
      ExplodeFront(sep, p[1..], tail);
      assert (p + tail)[1..] == p[1..] + tail;
      assert [p[0]] + (p[1..] + Explode(sep, tail)[0]) == p + Explode(sep, tail)[0];
    } else {
      var e := Explode(sep, tail);
      assert p + tail == tail;
      assert p + e[0] == e[0];
      assert e == [e[0]] + e[1..];
    }
  }

  /** Splitting joined pieces that hold no separator gives the pieces back. */
  lemma {:induction false} ExplodeImplode(sep: char, parts: seq<string>)
    requires |parts| >= 1
    requires forall i :: 0 <= i < |parts| ==> sep !in parts[i]
    ensures Explode(sep, Implode(sep, parts)) == parts
    decreases |parts|
  {
    var p := parts[0];
    if |parts| == 1 {
      ExplodeFront(sep, p, "");
      assert p + "" == p;
    } else {
      var tail := Implode(sep, parts[1..]);
      ExplodeImplode(sep, parts[1..]);
      assert Implode(sep, parts) == p + ([sep] + tail);
      var t := [sep] + tail;
      ExplodeFront(sep, p, t);
      assert t[0] == sep && t[1..] == tail;
      var e := Explode(sep, t);
      assert e == [""] + parts[1..];
      assert e[0] == "" && e[1..] == parts[1..];
      assert p + e[0] == p;
      assert parts == [p] + parts[1..];
    }
  }

  /** A character absent from every piece, and other than the separator, is absent from the join. */
  lemma {:induction false} ImplodeExcludes(sep: char, c: char, parts: seq<string>)
    requires |parts| >= 1 && c != sep
    requires forall i :: 0 <= i < |parts| ==> c !in parts[i]
    ensures c !in Implode(sep, parts)
    decreases |parts|
  {
    if |parts| > 1 {
      ImplodeExcludes(sep, c, parts[1..]);
    }
  }

  // ---------------------------------------------------------------------
  // (int) cast of a string
  // ---------------------------------------------------------------------

  predicate IsDigit(c: char) {
    '0' <= c <= '9'
  }

  /** The whitespace PHP skips before a numeric string: space, \t, \n, \r, \v, \f. */
  predicate IsWhitespace(c: char) {
    c == ' ' || c == '\t' || c == '\n' || c == '\r' || c == '\U{000B}' || c == '\U{000C}'
  }

  /** `s` without its leading whitespace. */
  function TrimLeft(s: string): (t: string)
    ensures t != [] ==> !IsWhitespace(t[0])
    decreases |s|
  {
    if s != [] && IsWhitespace(s[0]) then TrimLeft(s[1..]) else s
  }

  /** The longest prefix of `s` made of decimal digits. */
  function LeadingDigits(s: string): (d: string)
    ensures |d| <= |s| && d == s[..|d|]
    ensures forall i :: 0 <= i < |d| ==> IsDigit(d[i])
    ensures |d| < |s| ==> !IsDigit(s[|d|])
    decreases |s|
  {
    if s != [] && IsDigit(s[0]) then [s[0]] + LeadingDigits(s[1..]) else []
  }

  /** The value of a string of decimal digits, most significant first. */
  function DigitsValue(d: string): nat
    requires forall i :: 0 <= i < |d| ==> IsDigit(d[i])
    decreases |d|
  {
    if d == [] then 0
    else
      assert IsDigit(d[|d| - 1]);
      10 * DigitsValue(d[..|d| - 1]) + (d[|d| - 1] as int - '0' as int)
  }

  /**
   * `(int) $s`: skip leading whitespace, read an optional sign and the
   * longest run of digits after it; no digits at all gives 0.
   */
  function IntCast(s: string): int {
    var t := TrimLeft(s);
    if t != [] && t[0] == '-' then -(DigitsValue(LeadingDigits(t[1..])) as int)
    else if t != [] && t[0] == '+' then DigitsValue(LeadingDigits(t[1..]))
    else DigitsValue(LeadingDigits(t))
  }

  function DigitChar(n: nat): (c: char)
    requires n < 10
  {
    ('0' as int + n) as char
  }

  /** The decimal rendering of a natural number, without leading zeros. */
  function Decimal(n: nat): (s: string)
    ensures |s| >= 1
    ensures forall i :: 0 <= i < |s| ==> IsDigit(s[i])
    decreases n
  {
    if n < 10 then [DigitChar(n)] else Decimal(n / 10) + [DigitChar(n % 10)]
  }

  /** Writing one more digit after a number multiplies it by ten and adds the digit. */
  lemma DecimalDigit(n: nat, d: nat)
    requires 1 <= n && d < 10
    ensures Decimal(10 * n + d) == Decimal(n) + [DigitChar(d)]
  {
    assert (10 * n + d) / 10 == n && (10 * n + d) % 10 == d;
  }

  /** The decimal rendering of an integer, as PHP's `(string)` cast writes it. */
  function IntString(n: int): string {
    if n < 0 then "-" + Decimal(-n) else Decimal(n)
  }

  /** The renderings of the account and vendor numbers the examples use. */
  lemma IntStringExamples()
    ensures IntString(1234567) == "1234567"
    ensures IntString(9876543) == "9876543"
  {
    DecimalDigit(1, 2);
    DecimalDigit(12, 3);
    DecimalDigit(123, 4);
    DecimalDigit(1234, 5);
    DecimalDigit(12345, 6);
    DecimalDigit(123456, 7);
    DecimalDigit(9, 8);
    DecimalDigit(98, 7);
    DecimalDigit(987, 6);
    DecimalDigit(9876, 5);
    DecimalDigit(98765, 4);
    DecimalDigit(987654, 3);
  }

  lemma {:induction false} DigitsValueDecimal(n: nat)
    ensures DigitsValue(Decimal(n)) == n
    decreases n
  {
    if n >= 10 {
      DigitsValueDecimal(n / 10);
      var s := Decimal(n);
      assert s[..|s| - 1] == Decimal(n / 10);
    }
  }

  lemma {:induction false} LeadingDigitsOfDigits(d: string, tail: string)
    requires forall i :: 0 <= i < |d| ==> IsDigit(d[i])
    requires tail == [] || !IsDigit(tail[0])
    ensures LeadingDigits(d + tail) == d
    decreases |d|
  {
    if d != [] {
      LeadingDigitsOfDigits(d[1..], tail);
      assert (d + tail)[1..] == d[1..] + tail;
      assert d == [d[0]] + d[1..];
    } else {
      assert d + tail == tail;
    }
  }

  /** A run of digits followed by a non-digit casts to the run's value. */
  lemma IntCastDigits(d: string, tail: string)
    requires |d| >= 1 && forall i :: 0 <= i < |d| ==> IsDigit(d[i])
    requires tail == [] || !IsDigit(tail[0])
    ensures IntCast(d + tail) == DigitsValue(d)
  {
    var s := d + tail;
    LeadingDigitsOfDigits(d, tail);
    assert s[0] == d[0] && IsDigit(d[0]);
    assert s[0] != '-' && s[0] != '+';
    assert TrimLeft(s) == s;
  }

  /** A minus sign before a run of digits negates the run's value. */
  lemma IntCastNegative(d: string, tail: string)
    requires |d| >= 1 && forall i :: 0 <= i < |d| ==> IsDigit(d[i])
    requires tail == [] || !IsDigit(tail[0])
    ensures IntCast(['-'] + (d + tail)) == -(DigitsValue(d) as int)
  {
    var s := ['-'] + (d + tail);
    LeadingDigitsOfDigits(d, tail);
    assert s[0] == '-' && s[1..] == d + tail;
    assert TrimLeft(s) == s;
  }

  /**
   * `(int)` reads back any integer from its decimal rendering, whatever
   * non-digit text follows it ("1234567" and "12abc" alike).
   */
  lemma IntCastIntString(n: int, tail: string)
    requires tail == [] || !IsDigit(tail[0])
    ensures IntCast(IntString(n) + tail) == n
  {
    var m: nat := if n < 0 then -n else n;
    DigitsValueDecimal(m);
    if n < 0 {
      IntCastNegative(Decimal(m), tail);
      assert IntString(n) + tail == ['-'] + (Decimal(m) + tail);
    } else {
      IntCastDigits(Decimal(m), tail);
    }
  }

  /** Trimming keeps a string free of digits. */
  lemma {:induction false} TrimLeftNoDigits(s: string)
    requires forall i :: 0 <= i < |s| ==> !IsDigit(s[i])
    ensures forall i :: 0 <= i < |TrimLeft(s)| ==> !IsDigit(TrimLeft(s)[i])
    decreases |s|
  {
    if s != [] && IsWhitespace(s[0]) {
      assert forall i :: 0 <= i < |s[1..]| ==> s[1..][i] == s[i + 1];
      TrimLeftNoDigits(s[1..]);
    }
  }

  /** A string without a single digit casts to 0, whatever else it holds. */
  lemma IntCastNoDigits(s: string)
    requires forall i :: 0 <= i < |s| ==> !IsDigit(s[i])
    ensures IntCast(s) == 0
  {
    var t := TrimLeft(s);
    TrimLeftNoDigits(s);
    if t != [] && (t[0] == '-' || t[0] == '+') {
      assert t[1..] == [] || t[1..][0] == t[1];
    }
  }

  // ---------------------------------------------------------------------
  // Ordered arrays: a PHP array as its entries in insertion order
  // ---------------------------------------------------------------------

  predicate Distinct<T(==)>(s: seq<T>) {
    forall i, j :: 0 <= i < j < |s| ==> s[i] != s[j]
  }

  /** The keys of an ordered array, in order. */
  function Keys<K, V>(a: seq<(K, V)>): seq<K> {
    seq(|a|, i requires 0 <= i < |a| => a[i].0)
  }

  /** `$a[$k] ?? null`: the value stored under `k`, if any. */
  function Lookup<K(==), V>(a: seq<(K, V)>, k: K): Option<V>
    decreases |a|
  {
    if a == [] then None
    else if a[0].0 == k then Some(a[0].1)
    else Lookup(a[1..], k)
  }

  lemma KeysCons<K, V>(e: (K, V), a: seq<(K, V)>)
    ensures Keys([e] + a) == [e.0] + Keys(a)
  {
  }

  /**
   * `$a[$k] = $v`: an existing key keeps its position and takes the new
   * value; a new key is added at the end. Nothing else changes.
   */
  function Assign<K(==,!new), V(!new)>(a: seq<(K, V)>, k: K, v: V): (r: seq<(K, V)>)
    ensures Lookup(r, k) == Some(v)
    ensures forall j :: j != k ==> Lookup(r, j) == Lookup(a, j)
    ensures Keys(r) == if k in Keys(a) then Keys(a) else Keys(a) + [k]
    ensures forall e :: e in r ==> e in a || e == (k, v)
    decreases |a|
  {
    if a == [] then [(k, v)]
    else if a[0].0 == k then
      KeysCons((k, v), a[1..]);
      KeysCons(a[0], a[1..]);
      assert a == [a[0]] + a[1..];
      [(k, v)] + a[1..]
    else
      var rest := Assign(a[1..], k, v);
      KeysCons(a[0], rest);
      KeysCons(a[0], a[1..]);
      assert a == [a[0]] + a[1..];
      [a[0]] + rest
  }

  /** A key is found exactly when it is among the keys. */
  lemma {:induction false} LookupKeys<K, V>(a: seq<(K, V)>, k: K)
    ensures Lookup(a, k).Some? <==> k in Keys(a)
    decreases |a|
  {
    if a != [] {
      LookupKeys(a[1..], k);
      KeysCons(a[0], a[1..]);
      assert a == [a[0]] + a[1..];
    }
  }

  /** Adding an entry at the end leaves every other key's lookup unchanged. */
  lemma {:induction false} LookupAppend<K, V>(a: seq<(K, V)>, e: (K, V), k: K)
    requires k != e.0
    ensures Lookup(a + [e], k) == Lookup(a, k)
    decreases |a|
  {
    if a != [] {
      LookupAppend(a[1..], e, k);
      assert (a + [e])[1..] == a[1..] + [e];
    }
  }

  /** Assignment never gives a key a second entry. */
  lemma AssignDistinct<K(!new), V(!new)>(a: seq<(K, V)>, k: K, v: V)
    requires Distinct(Keys(a))
    ensures Distinct(Keys(Assign(a, k, v)))
  {
    var ks := Keys(a);
    if k !in ks {
      var ks' := ks + [k];
      assert forall i :: 0 <= i < |ks| ==> ks'[i] == ks[i];
      assert forall i :: 0 <= i < |ks| ==> ks'[i] != k;
    }
  }

  /** Assigning a key that is not there yet is an append. */
  lemma {:induction false} AssignFresh<K(!new), V(!new)>(a: seq<(K, V)>, k: K, v: V)
    requires k !in Keys(a)
    ensures Assign(a, k, v) == a + [(k, v)]
    decreases |a|
  {
    if a != [] {
      assert a[0].0 == Keys(a)[0];
      assert Keys(a[1..]) == Keys(a)[1..];
      AssignFresh(a[1..], k, v);
      assert a == [a[0]] + a[1..];
    }
  }

  // ---------------------------------------------------------------------
  // array_combine
  // ---------------------------------------------------------------------

  /**
   * `array_combine($keys, $values)` for lists of equal length: each key
   * is assigned its value in turn, so a repeated key keeps its first
   * position and its last value.
   */
  function Combine<K(==,!new), V(!new)>(keys: seq<K>, values: seq<V>): seq<(K, V)>
    requires |keys| == |values|
    decreases |keys|
  {
    if keys == [] then []
    else Assign(Combine(keys[..|keys| - 1], values[..|values| - 1]), keys[|keys| - 1], values[|values| - 1])
  }

  /** The pairs `(keys[i], values[i])` side by side. */
  function Zip<K, V>(keys: seq<K>, values: seq<V>): (z: seq<(K, V)>)
    requires |keys| == |values|
  {
    seq(|keys|, i requires 0 <= i < |keys| => (keys[i], values[i]))
  }

  /** The combined array has exactly the given keys, each once. */
  lemma {:induction false} CombineKeys<K(!new), V(!new)>(keys: seq<K>, values: seq<V>)
    requires |keys| == |values|
    ensures Distinct(Keys(Combine(keys, values)))
    ensures forall k :: k in Keys(Combine(keys, values)) <==> k in keys
    decreases |keys|
  {
    if keys != [] {
      var n := |keys| - 1;
      var ks, vs := keys[..n], values[..n];
      var c := Combine(ks, vs);
      CombineKeys(ks, vs);
      AssignKeys(c, keys[n], values[n], ks);
      assert Combine(keys, values) == Assign(c, keys[n], values[n]);
      assert keys == ks + [keys[n]];
    }
  }

  /** Assigning `k` into an array with distinct keys `ks` gives distinct keys `ks` and `k`. */
  lemma AssignKeys<K(!new), V(!new)>(a: seq<(K, V)>, k: K, v: V, ks: seq<K>)
    requires Distinct(Keys(a))
    requires forall x :: x in Keys(a) <==> x in ks
    ensures Distinct(Keys(Assign(a, k, v)))
    ensures forall x :: x in Keys(Assign(a, k, v)) <==> x in ks + [k]
  {
    AssignDistinct(a, k, v);
  }

  /** Position `i` holds the last occurrence of its key. */
  predicate LastOccurrence<K(==)>(keys: seq<K>, i: int) {
    0 <= i < |keys| && forall j :: i < j < |keys| ==> keys[j] != keys[i]
  }

  /** A last occurrence before the final key stays one when the final key is dropped. */
  lemma LastOccurrenceDrop<K>(keys: seq<K>, i: int)
    requires LastOccurrence(keys, i) && i < |keys| - 1
    ensures LastOccurrence(keys[..|keys| - 1], i) && keys[i] != keys[|keys| - 1]
  {
  }

  /** Each key of the combined array holds the value at its last occurrence. */
  lemma {:induction false} CombineLookup<K(!new), V(!new)>(keys: seq<K>, values: seq<V>)
    requires |keys| == |values|
    ensures forall i :: LastOccurrence(keys, i) ==> Lookup(Combine(keys, values), keys[i]) == Some(values[i])
    decreases |keys|
  {
    if keys != [] {
      var n := |keys| - 1;
      var ks, vs := keys[..n], values[..n];
      CombineLookup(ks, vs);
      var c := Combine(ks, vs);
      var a := Assign(c, keys[n], values[n]);
      forall i | LastOccurrence(keys, i)
        ensures Lookup(a, keys[i]) == Some(values[i])
      {
        if i < n {
          LastOccurrenceDrop(keys, i);
          assert ks[i] == keys[i] && vs[i] == values[i];
          assert Lookup(c, keys[i]) == Some(values[i]);
        }
      }
      assert Combine(keys, values) == a;
    }
  }

  /** Combining one more pair is one more assignment. */
  lemma CombineStep<K(!new), V(!new)>(keys: seq<K>, values: seq<V>, i: nat)
    requires |keys| == |values| && i < |keys|
    ensures Combine(keys[..i + 1], values[..i + 1]) == Assign(Combine(keys[..i], values[..i]), keys[i], values[i])
  {
    assert keys[..i + 1][..i] == keys[..i];
    assert values[..i + 1][..i] == values[..i];
  }

  /** Every entry of the combined array is one of the given pairs, and there are no more entries than pairs. */
  lemma {:induction false} CombinePairs<K(!new), V(!new)>(keys: seq<K>, values: seq<V>)
    requires |keys| == |values|
    ensures |Combine(keys, values)| <= |keys|
    ensures forall e :: e in Combine(keys, values) ==> exists i :: 0 <= i < |keys| && e == (keys[i], values[i])
    decreases |keys|
  {
    if keys != [] {
      var n := |keys| - 1;
      var ks, vs := keys[..n], values[..n];
      CombinePairs(ks, vs);
      var c := Combine(ks, vs);
      assert |Keys(Combine(keys, values))| <= |Keys(c)| + 1;
      forall e | e in Combine(keys, values)
        ensures exists i :: 0 <= i < |keys| && e == (keys[i], values[i])
      {
        if e in c {
          var i :| 0 <= i < n && e == (ks[i], vs[i]);
          assert keys[i] == ks[i] && values[i] == vs[i];
        } else {
          assert e == (keys[n], values[n]);
        }
      }
    }
  }

  /** The keys of the pairs are the keys zipped. */
  lemma KeysZip<K, V>(keys: seq<K>, values: seq<V>)
    requires |keys| == |values|
    ensures Keys(Zip(keys, values)) == keys
  {
  }

  /** Zipping one more key and value appends one pair. */
  lemma ZipSnoc<K, V>(keys: seq<K>, values: seq<V>)
    requires |keys| == |values| && keys != []
    ensures Zip(keys, values) == Zip(keys[..|keys| - 1], values[..|values| - 1]) + [(keys[|keys| - 1], values[|values| - 1])]
  {
  }

  /** With no repeated key, combining is zipping. */
  lemma {:induction false} CombineDistinct<K(!new), V(!new)>(keys: seq<K>, values: seq<V>)
    requires |keys| == |values|
    requires Distinct(keys)
    ensures Combine(keys, values) == Zip(keys, values)
    decreases |keys|
  {
    if keys != [] {
      var n := |keys| - 1;
      var ks, vs := keys[..n], values[..n];
      CombineDistinct(ks, vs);
      KeysZip(ks, vs);
      assert keys[n] !in ks;
      AssignFresh(Zip(ks, vs), keys[n], values[n]);
      ZipSnoc(keys, values);
    }
  }
}
