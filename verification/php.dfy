/** The parts of PHP's runtime the plugin leans on: ordered string-keyed
    arrays, `str_replace` with a one-character needle, `strtolower`,
    `implode`, `array_chunk` and the decimal rendering of an integer. */
module Php {
  import opened Wrappers

  /** A PHP array with string keys and string values, in insertion order. */
  type Assoc = seq<(string, string)>

  function Keys(a: Assoc): seq<string> {
    seq(|a|, i requires 0 <= i < |a| => a[i].0)
  }

  /** `array_values`. */
  function Values(a: Assoc): seq<string> {
    seq(|a|, i requires 0 <= i < |a| => a[i].1)
  }

  predicate Distinct(s: seq<string>) {
    forall i, j :: 0 <= i < j < |s| ==> s[i] != s[j]
  }

  predicate Has(a: Assoc, k: string) {
    k in Keys(a)
  }

  /** `$a[$k]`, None when the key is absent. */
  function Get(a: Assoc, k: string): Option<string> {
    if a == [] then None
    else if a[0].0 == k then Some(a[0].1)
    else Get(a[1..], k)
  }

  lemma {:induction false} GetAbsent(a: Assoc, k: string)
    requires !Has(a, k)
    ensures Get(a, k) == None
  {
    if a != [] {
      assert Keys(a)[0] == a[0].0;
      assert Keys(a[1..]) == Keys(a)[1..];
      GetAbsent(a[1..], k);
    }
  }

  lemma {:induction false} GetAt(a: Assoc, i: nat)
    requires i < |a| && Distinct(Keys(a))
    ensures Get(a, a[i].0) == Some(a[i].1)
  {
    if i > 0 {
      assert Keys(a)[0] != Keys(a)[i];
      assert Keys(a[1..]) == Keys(a)[1..];
      GetAt(a[1..], i - 1);
    }
  }

  /** `$a[$k] = $v`: an existing key keeps its position and takes the new
      value; a new key is appended. */
  function Put(a: Assoc, k: string, v: string): Assoc {
    if a == [] then [(k, v)]
    else if a[0].0 == k then [(k, v)] + a[1..]
    else [a[0]] + Put(a[1..], k, v)
  }

  lemma {:induction false} PutKeys(a: Assoc, k: string, v: string)
    ensures Keys(Put(a, k, v)) == if Has(a, k) then Keys(a) else Keys(a) + [k]
  {
    if a != [] {
      assert Keys(a) == [a[0].0] + Keys(a[1..]);
      if a[0].0 != k {
        PutKeys(a[1..], k, v);
        assert Keys([a[0]] + Put(a[1..], k, v)) == [a[0].0] + Keys(Put(a[1..], k, v));
      } else {
        assert Keys([(k, v)] + a[1..]) == [k] + Keys(a[1..]);
      }
    }
  }

  lemma {:induction false} PutGet(a: Assoc, k: string, v: string, k': string)
    ensures Get(Put(a, k, v), k') == if k' == k then Some(v) else Get(a, k')
  {
    if a != [] && a[0].0 != k {
      PutGet(a[1..], k, v, k');
      assert Put(a, k, v)[1..] == Put(a[1..], k, v);
    }
  }

  /** Assigning a key the array does not hold appends it. */
  lemma {:induction false} PutNew(a: Assoc, k: string, v: string)
    requires !Has(a, k)
    ensures Put(a, k, v) == a + [(k, v)]
  {
    if a != [] {
      assert Keys(a) == [a[0].0] + Keys(a[1..]);
      PutNew(a[1..], k, v);
      assert a == [a[0]] + a[1..];
    }
  }

  lemma PutDistinct(a: Assoc, k: string, v: string)
    requires Distinct(Keys(a))
    ensures Distinct(Keys(Put(a, k, v)))
  {
    PutKeys(a, k, v);
  }

  /** The keys of `xs` in the order of their first occurrence. */
  function Dedup(xs: seq<string>): (r: seq<string>)
    ensures forall x :: x in r <==> x in xs
    ensures Distinct(r)
  {
    if xs == [] then []
    else
      var init := Dedup(xs[..|xs| - 1]);
      assert xs == xs[..|xs| - 1] + [xs[|xs| - 1]];
      if xs[|xs| - 1] in xs[..|xs| - 1] then init else init + [xs[|xs| - 1]]
  }

  /** `strtolower` on one character: ASCII letters only. */
  function LowerChar(c: char): char {
    if 'A' <= c <= 'Z' then (c as int + 32) as char else c
  }

  /** `strtolower`: each upper-case ASCII letter becomes its lower-case
      letter; every other character is kept. */
  function Lower(s: string): (r: string)
    ensures |r| == |s|
    ensures forall i :: 0 <= i < |s| && 'A' <= s[i] <= 'Z' ==> r[i] as int == s[i] as int + 32
    ensures forall i :: 0 <= i < |s| && !('A' <= s[i] <= 'Z') ==> r[i] == s[i]
    ensures forall i :: 0 <= i < |r| ==> !('A' <= r[i] <= 'Z')
  {
    seq(|s|, i requires 0 <= i < |s| => LowerChar(s[i]))
  }

  /** Two characters that are the same letter in either ASCII case, or equal. */
  predicate SameIgnoringCase(c: char, d: char) {
    || c == d
    || ('A' <= c <= 'Z' && d as int == c as int + 32)
    || ('A' <= d <= 'Z' && c as int == d as int + 32)
  }

  /** Lowering makes two strings equal exactly when they agree character by
      character up to ASCII case: the comparison of lowered names is a
      case-insensitive one. */
  lemma LowerEqualIff(a: string, b: string)
    ensures Lower(a) == Lower(b) <==> |a| == |b| && forall i :: 0 <= i < |a| ==> SameIgnoringCase(a[i], b[i])
  {
  }

  /** Lowering twice is lowering once. */
  lemma LowerIdempotent(s: string)
    ensures Lower(Lower(s)) == Lower(s)
  {
  }

  /** `array_change_key_case($a, CASE_LOWER)`: keys that collide once lowered
      keep the first position and the last value. The result's keys are
      lower-case and pairwise different. */
  function LowerKeys(a: Assoc): (r: Assoc)
    ensures Distinct(Keys(r))
    ensures forall i :: 0 <= i < |r| ==> Lower(r[i].0) == r[i].0
  {
    if a == [] then []
    else
      var init := LowerKeys(a[..|a| - 1]);
      var k := Lower(a[|a| - 1].0);
      PutDistinct(init, k, a[|a| - 1].1);
      PutKeys(init, k, a[|a| - 1].1);
      LowerIdempotent(a[|a| - 1].0);
      var r := Put(init, k, a[|a| - 1].1);
      assert forall i :: 0 <= i < |r| ==> r[i].0 == Keys(r)[i];
      assert forall i :: 0 <= i < |init| ==> init[i].0 == Keys(init)[i];
      r
  }

  /** The value of the last entry of `a` whose lowered key is `lk`. */
  function LastWithLowerKey(a: Assoc, lk: string): Option<string> {
    if a == [] then None
    else if Lower(a[|a| - 1].0) == lk then Some(a[|a| - 1].1)
    else LastWithLowerKey(a[..|a| - 1], lk)
  }

  /** Looking a lowered key up after `array_change_key_case` finds the value
      of the last column whose name lowers to it. */
  lemma {:induction false} LowerKeysGet(a: Assoc, lk: string)
    ensures Get(LowerKeys(a), lk) == LastWithLowerKey(a, lk)
  {
    if a != [] {
      LowerKeysGet(a[..|a| - 1], lk);
      PutGet(LowerKeys(a[..|a| - 1]), Lower(a[|a| - 1].0), a[|a| - 1].1, lk);
    }
  }

  /** How often `c` occurs in `s`. */
  function CountChar(c: char, s: string): nat {
    if s == [] then 0 else (if s[0] == c then 1 else 0) + CountChar(c, s[1..])
  }

  /** `str_replace($search, $replace, $subject)` for a one-character needle:
      each occurrence of the needle becomes the replacement, so the length
      changes by `|replace| - 1` per occurrence, and a replacement free of the
      needle leaves none behind. */
  function StrReplace(search: char, replace: string, subject: string): (r: string)
    ensures |r| == |subject| + CountChar(search, subject) * (|replace| - 1)
    ensures search !in replace ==> search !in r
  {
    if subject == [] then []
    else (if subject[0] == search then replace else [subject[0]]) + StrReplace(search, replace, subject[1..])
  }

  lemma {:induction false} StrReplaceAppend(search: char, replace: string, a: string, b: string)
    ensures StrReplace(search, replace, a + b) == StrReplace(search, replace, a) + StrReplace(search, replace, b)
  {
    if a != [] {
      var f := if a[0] == search then replace else [a[0]];
      assert (a + b)[0] == a[0];
      assert (a + b)[1..] == a[1..] + b;
      calc {
        StrReplace(search, replace, a + b);
        f + StrReplace(search, replace, a[1..] + b);
        { StrReplaceAppend(search, replace, a[1..], b); }
        f + (StrReplace(search, replace, a[1..]) + StrReplace(search, replace, b));
        (f + StrReplace(search, replace, a[1..])) + StrReplace(search, replace, b);
      }
    } else {
      assert a + b == b;
    }
  }

  /** The summed lengths of `items`. */
  function TotalLength(items: seq<string>): nat {
    if items == [] then 0 else |items[0]| + TotalLength(items[1..])
  }

  /** `implode($sep, $items)`: the items in order, one separator between each
      two neighbours. */
  function Implode(sep: string, items: seq<string>): (r: string)
    ensures items == [] ==> r == ""
    ensures items != [] ==> items[0] <= r
    ensures items != [] ==> |r| == TotalLength(items) + (|items| - 1) * |sep|
  {
    if items == [] then ""
    else if |items| == 1 then items[0]
    else items[0] + sep + Implode(sep, items[1..])
  }

  /** Appending an item appends one separator and the item: every later item
      follows exactly one separator. */
  lemma {:induction false} ImplodeAppend(sep: string, items: seq<string>, x: string)
    requires items != []
    ensures Implode(sep, items + [x]) == Implode(sep, items) + sep + x
  {
    assert (items + [x])[0] == items[0];
    assert (items + [x])[1..] == items[1..] + [x];
    if |items| > 1 {
      ImplodeAppend(sep, items[1..], x);
    } else {
      assert items[1..] + [x] == [x];
    }
  }

  function Digit(d: nat): char
    requires d < 10
  {
    ('0' as int + d) as char
  }

  /** The decimal rendering PHP uses when an integer is concatenated to a string. */
  function NatToString(n: nat): (s: string)
    ensures |s| > 0
    ensures forall i :: 0 <= i < |s| ==> '0' <= s[i] <= '9'
  {
    if n < 10 then [Digit(n)] else NatToString(n / 10) + [Digit(n % 10)]
  }

  /** Reads a string of decimal digits back as a number. */
  function ParseDecimal(s: string): nat
    requires forall i :: 0 <= i < |s| ==> '0' <= s[i] <= '9'
  {
    if s == [] then 0
    else ParseDecimal(s[..|s| - 1]) * 10 + (s[|s| - 1] as int - '0' as int)
  }

  /** A non-empty string of decimal digits: the numeric strings this model
      recognises. */
  predicate DecimalDigits(s: string) {
    |s| > 0 && forall i :: 0 <= i < |s| ==> '0' <= s[i] <= '9'
  }

  /** PHP's loose `==` between two strings: two numeric strings compare as
      numbers, any other pair byte by byte. It is reflexive, and tells apart
      strings that are not both numeric exactly as `===` does. */
  predicate LooseEquals(a: string, b: string)
    ensures a == b ==> LooseEquals(a, b)
    ensures !(DecimalDigits(a) && DecimalDigits(b)) ==> (LooseEquals(a, b) <==> a == b)
  {
    if DecimalDigits(a) && DecimalDigits(b) then ParseDecimal(a) == ParseDecimal(b) else a == b
  }

  /** Leading zeros do not make two numeric strings differ: "0123" == "123". */
  lemma LeadingZeroLooselyEqual()
    ensures LooseEquals("0123", "123")
    ensures "0123" != "123"
  {
    assert DecimalDigits("0123") && DecimalDigits("123");
    assert "0123"[..3] == "012" && "012"[..2] == "01" && "01"[..1] == "0";
    assert "123"[..2] == "12" && "12"[..1] == "1";
    assert ParseDecimal("0123") == 123;
    assert ParseDecimal("123") == 123;
  }

  lemma {:induction false} ParseNatToString(n: nat)
    ensures ParseDecimal(NatToString(n)) == n
  {
    if n >= 10 {
      var s := NatToString(n);
      assert s[..|s| - 1] == NatToString(n / 10);
      ParseNatToString(n / 10);
    }
  }

  /** Different numbers render differently. */
  lemma NatToStringInjective(m: nat, n: nat)
    requires m != n
    ensures NatToString(m) != NatToString(n)
  {
    ParseNatToString(m);
    ParseNatToString(n);
  }

  function Flatten(chunks: seq<seq<string>>): seq<string> {
    if chunks == [] then [] else chunks[0] + Flatten(chunks[1..])
  }

  lemma {:induction false} FlattenAppend(a: seq<seq<string>>, b: seq<seq<string>>)
    ensures Flatten(a + b) == Flatten(a) + Flatten(b)
  {
    if a != [] {
      assert (a + b)[0] == a[0];
      assert (a + b)[1..] == a[1..] + b;
      calc {
        Flatten(a + b);
        a[0] + Flatten(a[1..] + b);
        { FlattenAppend(a[1..], b); }
        a[0] + (Flatten(a[1..]) + Flatten(b));
        (a[0] + Flatten(a[1..])) + Flatten(b);
      }
    } else {
      assert a + b == b;
    }
  }

  /** `array_chunk($list, $size)`: consecutive pieces of `size` elements, the
      last one possibly shorter, no piece empty. */
  function ArrayChunk(list: seq<string>, size: nat): (chunks: seq<seq<string>>)
    requires size > 0
    ensures Flatten(chunks) == list
    ensures forall i :: 0 <= i < |chunks| ==> 0 < |chunks[i]| <= size
    ensures forall i :: 0 <= i < |chunks| - 1 ==> |chunks[i]| == size
    decreases |list|
  {
    if list == [] then []
    else if |list| <= size then [list]
    else
      var rest := ArrayChunk(list[size..], size);
      assert Flatten([list[..size]] + rest) == list[..size] + Flatten(rest);
      assert list == list[..size] + list[size..];
      [list[..size]] + rest
  }
}
