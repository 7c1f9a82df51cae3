/**
 * The few PHP values and built-ins that the Turnstile helper relies on:
 * the values stored in an attribute array or a decoded reply, PHP's
 * boolean conversion (what `array_filter` without a callback keeps),
 * the string conversion of `(array)` + `implode(' ', ...)`.
 */
module Php {
  import opened Wrappers

  /** A PHP value as it can appear in an attribute array or a decoded reply. */
  datatype Value =
    | Str(s: string)
    | Int(i: int)
    | Bool(b: bool)
    | Null
    | List(items: seq<string>)

  /** PHP's conversion of a string to bool: only "" and "0" are false. */
  predicate TruthyString(s: string): (r: bool)
    ensures !r <==> |s| == 0 || (|s| == 1 && s[0] == '0')
  {
    s != "" && s != "0"
  }

  /** PHP's conversion to bool: "", "0", 0, false, null and [] are false. */
  predicate Truthy(v: Value): (r: bool)
    ensures !r <==> v == Str("") || v == Str("0") || v == Int(0) || v == Bool(false) || v == Null || v == List([])
  {
    match v
    case Str(s) => TruthyString(s)
    case Int(i) => i != 0
    case Bool(b) => b
    case Null => false
    case List(items) => items != []
  }

  /** The character of a decimal digit. */
  function DigitChar(d: nat): (c: char)
    requires d < 10
    ensures '0' <= c <= '9'
    ensures DigitValue(c) == d
  {
    ('0' as int + d) as char
  }

  /** The value of a decimal digit character. */
  function DigitValue(c: char): nat {
    if '0' <= c <= '9' then (c as int - '0' as int) as nat else 0
  }

  /** The number a string of decimal digits denotes, most significant first. */
  function NatValue(s: string): nat
    decreases |s|
  {
    if s == [] then 0 else NatValue(s[..|s| - 1]) * 10 + DigitValue(s[|s| - 1])
  }

  /** Decimal digits of a natural number, most significant first, no leading zero. */
  function NatToString(n: nat): (r: string)
    ensures |r| >= 1
    ensures forall k :: 0 <= k < |r| ==> '0' <= r[k] <= '9'
    ensures r[0] == '0' ==> n == 0 && r == "0"
    decreases n
  {
    if n < 10 then [DigitChar(n)] else NatToString(n / 10) + [DigitChar(n % 10)]
  }

  /** The digits denote the number they were written from. */
  lemma {:induction false} NatToStringValue(n: nat)
    ensures NatValue(NatToString(n)) == n
    decreases n
  {
    var r := NatToString(n);
    if n < 10 {
      assert r[..|r| - 1] == [];
    } else {
      NatToStringValue(n / 10);
      assert r[..|r| - 1] == NatToString(n / 10);
    }
  }

  /**
   * PHP's conversion of an integer to a string: a `-` before the digits of
   * a negative number, the digits alone otherwise, never a leading zero
   * except for zero itself.
   */
  function IntToString(i: int): (r: string)
    ensures |r| >= 1
    ensures r[0] == '-' <==> i < 0
    ensures forall k :: 1 <= k < |r| ==> '0' <= r[k] <= '9'
    ensures i >= 0 ==> '0' <= r[0] <= '9' && NatValue(r) == i
    ensures i < 0 ==> |r| >= 2 && NatValue(r[1..]) == -i
    ensures i >= 0 && r[0] == '0' ==> r == "0"
    ensures i < 0 ==> r[1] != '0'
  {
    if i < 0 then
      NatToStringValue(-i);
      assert ("-" + NatToString(-i))[1..] == NatToString(-i);
      "-" + NatToString(-i)
    else
      NatToStringValue(i);
      NatToString(i)
  }

  /** `implode(sep, parts)`: the parts joined by the separator. */
  function Implode(sep: string, parts: seq<string>): string
    decreases |parts|
  {
    if parts == [] then ""
    else if |parts| == 1 then parts[0]
    else parts[0] + sep + Implode(sep, parts[1..])
  }

  /** Appending a part to a non-empty list appends the separator and the part. */
  lemma {:induction false} ImplodeSnoc(sep: string, parts: seq<string>, p: string)
    requires parts != []
    ensures Implode(sep, parts + [p]) == Implode(sep, parts) + sep + p
    decreases |parts|
  {
    if |parts| == 1 {
      assert (parts + [p])[1..] == [p];
    } else {
      assert (parts + [p])[1..] == parts[1..] + [p];
      ImplodeSnoc(sep, parts[1..], p);
    }
  }

  /**
   * `implode(' ', (array) v)`: a scalar becomes a one-element array, null an
   * empty one, and the elements are converted to strings and space-joined.
   */
  function Text(v: Value): (r: string)
    ensures v.Str? ==> r == v.s
    ensures v.Int? ==> r == IntToString(v.i)
    ensures v.Bool? ==> r == (if v.b then "1" else "")
    ensures v.Null? ==> r == ""
    ensures v.List? && v.items == [] ==> r == ""
    ensures v.List? && |v.items| == 1 ==> r == v.items[0]
    ensures v.List? && |v.items| >= 2 ==> r == v.items[0] + " " + Implode(" ", v.items[1..])
  {
    match v
    case Str(s) => s
    case Int(i) => IntToString(i)
    case Bool(b) => if b then "1" else ""
    case Null => ""
    case List(items) => Implode(" ", items)
  }

  /** One entry of a PHP array: its key and its value. */
  datatype Entry = Entry(name: string, value: Value)

  /** The keys of a PHP array are distinct. */
  predicate UniqueNames(attrs: seq<Entry>) {
    forall i, j :: 0 <= i < j < |attrs| ==> attrs[i].name != attrs[j].name
  }

  /** The names of an attribute list, in order. */
  function Names(attrs: seq<Entry>): (r: seq<string>)
    ensures |r| == |attrs|
  {
    seq(|attrs|, i requires 0 <= i < |attrs| => attrs[i].name)
  }

  /**
   * The value the caller's array holds for a key, if any; when a key occurs
   * more than once the last assignment wins, as in a PHP loop.
   */
  function Find(attrs: seq<Entry>, name: string): (r: Option<Value>)
    ensures r.None? <==> forall i :: 0 <= i < |attrs| ==> attrs[i].name != name
    ensures r.Some? ==> exists i :: 0 <= i < |attrs| && attrs[i].name == name && attrs[i].value == r.value
    decreases |attrs|
  {
    if attrs == [] then None
    else if attrs[|attrs| - 1].name == name then Some(attrs[|attrs| - 1].value)
    else Find(attrs[..|attrs| - 1], name)
  }

  /** Appending an entry: it is read under its own key, and every other key reads as before. */
  lemma FindSnoc(attrs: seq<Entry>, e: Entry, name: string)
    ensures Find(attrs + [e], name) == if e.name == name then Some(e.value) else Find(attrs, name)
  {
    assert (attrs + [e])[..|attrs|] == attrs;
  }

  /** PHP's `array_filter`: the entries whose value is truthy, in order. */
  function Kept(attrs: seq<Entry>): (r: seq<Entry>)
    ensures |r| <= |attrs|
    decreases |attrs|
  {
    if attrs == [] then []
    else (if Truthy(attrs[0].value) then [attrs[0]] else []) + Kept(attrs[1..])
  }

  /** The filter keeps exactly the truthy entries. */
  lemma {:induction false} KeptMembers(attrs: seq<Entry>)
    ensures forall a :: a in Kept(attrs) <==> a in attrs && Truthy(a.value)
    decreases |attrs|
  {
    if attrs != [] {
      KeptMembers(attrs[1..]);
      assert attrs == [attrs[0]] + attrs[1..];
    }
  }

  lemma {:induction false} KeptSnoc(attrs: seq<Entry>, a: Entry)
    ensures Kept(attrs + [a]) == Kept(attrs) + (if Truthy(a.value) then [a] else [])
    decreases |attrs|
  {
    var s := attrs + [a];
    if attrs == [] {
      assert s[1..] == [];
    } else {
      var head := if Truthy(attrs[0].value) then [attrs[0]] else [];
      var last := if Truthy(a.value) then [a] else [];
      assert s[0] == attrs[0];
      assert s[1..] == attrs[1..] + [a];
      KeptSnoc(attrs[1..], a);
      assert Kept(s) == head + (Kept(attrs[1..]) + last);
      assert Kept(attrs) == head + Kept(attrs[1..]);
    }
  }
}
