/**
 * The widget's attribute array: the fixed, ordered defaults, the merge of
 * the caller's attributes in the constructor, and the attribute string that
 * `getAttributesString` renders from it.
 */
module WidgetAttributes {
  import opened Wrappers
  import opened Php
  import opened Html

  /** The position of a key in an array with distinct keys. */
  function IndexOf(attrs: seq<Entry>, name: string): (r: Option<nat>)
    ensures r.Some? ==> r.value < |attrs| && attrs[r.value].name == name
    ensures r.None? ==> forall i :: 0 <= i < |attrs| ==> attrs[i].name != name
    decreases |attrs|
  {
    if attrs == [] then None
    else if attrs[0].name == name then Some(0)
    else match IndexOf(attrs[1..], name)
      case None => None
      case Some(k) => Some(k + 1)
  }

  /**
   * What the constructor leaves in one default entry: the caller's value
   * when the caller passed that key and the entry `isset` (its value is not
   * null), the default otherwise.
   */
  function Override(a: Entry, overrides: seq<Entry>): (r: Entry)
    ensures r.name == a.name
    ensures Find(overrides, a.name).None? || a.value == Null ==> r == a
    ensures a.value != Null && Find(overrides, a.name).Some? ==> r.value == Find(overrides, a.name).value
  {
    if a.value != Null && Find(overrides, a.name).Some? then Entry(a.name, Find(overrides, a.name).value)
    else a
  }

  /** The attribute array after the constructor's merge: same keys, same order. */
  function Merge(base: seq<Entry>, overrides: seq<Entry>): (r: seq<Entry>)
    ensures Names(r) == Names(base)
  {
    seq(|base|, i requires 0 <= i < |base| => Override(base[i], overrides))
  }

  /** The merge loop of the constructor: only keys already present are overwritten. */
  method MergeAttributes(base: seq<Entry>, overrides: seq<Entry>) returns (merged: seq<Entry>)
    requires UniqueNames(base) && UniqueNames(overrides)
    ensures merged == Merge(base, overrides)
  {
    merged := base;
    var j := 0;
    while j < |overrides|
      invariant 0 <= j <= |overrides|
      invariant |merged| == |base|
      invariant forall i :: 0 <= i < |base| ==> merged[i] == Override(base[i], overrides[..j])
    {
      var x := overrides[j];
      assert Find(overrides[..j], x.name).None?;
      assert overrides[..j + 1] == overrides[..j] + [x];
      ghost var prev := merged;
      var k := IndexOf(merged, x.name);
      if k.Some? && merged[k.value].value != Null {
        merged := merged[k.value := Entry(x.name, x.value)];
      }
      forall i | 0 <= i < |base| ensures merged[i] == Override(base[i], overrides[..j + 1]) {
        OverrideStep(base[i], overrides[..j], x);
        assert prev[i] == Override(base[i], overrides[..j]);
      }
      j := j + 1;
    }
    assert overrides[..j] == overrides;
  }

  /** One more caller entry overrides an entry with its key that is set, and nothing else. */
  lemma OverrideStep(a: Entry, prefix: seq<Entry>, x: Entry)
    ensures Override(a, prefix + [x]) ==
      if a.name == x.name && a.value != Null then Entry(a.name, x.value) else Override(a, prefix)
  {
    FindSnoc(prefix, x, a.name);
  }

  /** Merging nothing keeps the defaults. */
  lemma MergeNothing(base: seq<Entry>)
    ensures Merge(base, []) == base
  {
  }

  /** A caller key that is not a default key is ignored, wherever it stands. */
  lemma MergeIgnoresUnknown(base: seq<Entry>, before: seq<Entry>, extra: Entry, after: seq<Entry>)
    requires extra.name !in Names(base)
    ensures Merge(base, before + [extra] + after) == Merge(base, before + after)
  {
    forall i | 0 <= i < |base|
      ensures Override(base[i], before + [extra] + after) == Override(base[i], before + after)
    {
      assert Names(base)[i] == base[i].name;
      FindSkips(before, extra, after, base[i].name);
    }
  }

  /** An entry under another key does not change what a key reads. */
  lemma {:induction false} FindSkips(before: seq<Entry>, x: Entry, after: seq<Entry>, name: string)
    requires x.name != name
    ensures Find(before + [x] + after, name) == Find(before + after, name)
    decreases |after|
  {
    if after == [] {
      FindSnoc(before, x, name);
      assert before + [x] + after == before + [x];
      assert before + after == before;
    } else {
      var last, init := after[|after| - 1], after[..|after| - 1];
      var longer, shorter := before + [x] + init, before + init;
      assert before + [x] + after == longer + [last];
      assert before + after == shorter + [last];
      FindSkips(before, x, init, name);
      FindSnoc(longer, last, name);
      FindSnoc(shorter, last, name);
    }
  }

  /** One rendered `name="value"` pair. */
  function Pair(a: Entry): string {
    a.name + "=\"" + Escape(Text(a.value)) + "\""
  }

  /**
   * A rendered pair is the name, `="`, a quoted part that holds no `"` and
   * decodes back to the value's text, then `"`.
   */
  lemma PairQuoted(a: Entry)
    ensures |Pair(a)| >= |a.name| + 3
    ensures Pair(a)[..|a.name| + 2] == a.name + "=\"" && Pair(a)[|Pair(a)| - 1] == '"'
    ensures '"' !in Pair(a)[|a.name| + 2..|Pair(a)| - 1]
    ensures Unescape(Pair(a)[|a.name| + 2..|Pair(a)| - 1]) == Text(a.value)
  {
    var q := Escape(Text(a.value));
    EscapeSafe(Text(a.value));
    UnescapeEscape(Text(a.value));
    var r := Pair(a);
    assert r[|a.name| + 2..|r| - 1] == q;
    assert r[..|a.name| + 2] == a.name + "=\"";
  }

  function Pairs(attrs: seq<Entry>): (r: seq<string>)
    ensures |r| == |attrs|
    decreases |attrs|
  {
    if attrs == [] then [] else [Pair(attrs[0])] + Pairs(attrs[1..])
  }

  /** `$pairs ? ' ' . implode(' ', $pairs) : ''`. */
  function Spaced(pairs: seq<string>): (r: string)
    ensures r == "" <==> pairs == []
    ensures pairs != [] ==> r[0] == ' '
  {
    if pairs == [] then "" else " " + Implode(" ", pairs)
  }

  /**
   * The attribute string `getAttributesString` returns: empty exactly when
   * the filter keeps nothing, and otherwise opened by one space.
   */
  function Render(attrs: seq<Entry>): (r: string)
    ensures r == "" <==> Kept(attrs) == []
    ensures r != "" ==> r[0] == ' '
  {
    Spaced(Pairs(Kept(attrs)))
  }

  lemma SpacedCons(p: string, pairs: seq<string>)
    ensures Spaced([p] + pairs) == " " + p + Spaced(pairs)
  {
    if pairs != [] {
      assert ([p] + pairs)[1..] == pairs;
    }
  }

  /** The string is empty exactly when no attribute survives the filter. */
  lemma RenderEmpty(attrs: seq<Entry>)
    ensures Render(attrs) == "" <==> forall a :: a in attrs ==> !Truthy(a.value)
    ensures Render(attrs) != "" ==> Render(attrs)[0] == ' '
  {
    KeptMembers(attrs);
    var kept := Kept(attrs);
    if kept != [] {
      assert kept[0] in kept;
    }
  }

  /**
   * The string grows one pair at a time: a further entry adds one space and
   * its pair when it is truthy, and nothing when it is not.
   */
  lemma RenderSnoc(attrs: seq<Entry>, a: Entry)
    ensures Render(attrs + [a]) == Render(attrs) + (if Truthy(a.value) then " " + Pair(a) else "")
  {
    KeptSnoc(attrs, a);
    var kept := Kept(attrs);
    if Truthy(a.value) {
      PairsSnoc(kept, a);
      SpacedSnoc(Pairs(kept), Pair(a));
    } else {
      assert kept + [] == kept;
    }
  }

  lemma {:induction false} PairsSnoc(attrs: seq<Entry>, a: Entry)
    ensures Pairs(attrs + [a]) == Pairs(attrs) + [Pair(a)]
    decreases |attrs|
  {
    if attrs == [] {
      assert [a][1..] == [];
    } else {
      assert (attrs + [a])[1..] == attrs[1..] + [a];
      PairsSnoc(attrs[1..], a);
    }
  }

  lemma SpacedSnoc(pairs: seq<string>, p: string)
    ensures Spaced(pairs + [p]) == Spaced(pairs) + " " + p
  {
    if pairs != [] {
      ImplodeSnoc(" ", pairs, p);
    }
  }

  /**
   * Splits s at the first occurrence of c: the text before it and the text
   * after it.
   */
  function SplitAt(s: string, c: char): (r: Option<(string, string)>)
    ensures r.Some? ==> s == r.value.0 + [c] + r.value.1 && c !in r.value.0
    ensures r.None? ==> c !in s
    decreases |s|
  {
    if s == [] then None
    else if s[0] == c then Some(([], s[1..]))
    else match SplitAt(s[1..], c)
      case None => None
      case Some((before, after)) => Some(([s[0]] + before, after))
  }

  lemma SplitAtFirst(before: string, c: char, after: string)
    requires c !in before
    ensures SplitAt(before + [c] + after, c) == Some((before, after))
  {
    var s := before + [c] + after;
    assert s[|before|] == c;
    var r := SplitAt(s, c);
    var b', a' := r.value.0, r.value.1;
    assert forall i :: 0 <= i < |before| ==> s[i] == before[i] != c;
    assert forall i :: 0 <= i < |b'| ==> s[i] == b'[i] != c;
    assert s[|b'|] == c;
    assert |b'| == |before|;
    assert b' == s[..|b'|] == before;
    assert a' == s[|b'| + 1..] == after;
  }

  /**
   * Reads an attribute string back: each pair is a space, a name up to `=`,
   * a double quote, the escaped value up to the next double quote, and a
   * closing quote; the values are unescaped.
   */
  function ParseAttributes(s: string): Option<seq<(string, string)>>
    decreases |s|
  {
    if s == [] then Some([])
    else if s[0] != ' ' then None
    else match SplitAt(s[1..], '=')
      case None => None
      case Some((name, r1)) =>
        if r1 == [] || r1[0] != '"' then None
        else match SplitAt(r1[1..], '"')
          case None => None
          case Some((value, r2)) =>
            match ParseAttributes(r2)
            case None => None
            case Some(rest) => Some([(name, Unescape(value))] + rest)
  }

  /** What a reader of the markup sees: each kept entry's name and text. */
  function Decoded(attrs: seq<Entry>): (r: seq<(string, string)>)
    ensures |r| == |attrs|
    decreases |attrs|
  {
    if attrs == [] then [] else [(attrs[0].name, Text(attrs[0].value))] + Decoded(attrs[1..])
  }

  lemma {:induction false} DecodedAt(attrs: seq<Entry>, i: nat)
    requires i < |attrs|
    ensures Decoded(attrs)[i] == (attrs[i].name, Text(attrs[i].value))
    decreases i
  {
    if i > 0 {
      DecodedAt(attrs[1..], i - 1);
    }
  }

  function Visible(attrs: seq<Entry>): seq<(string, string)> {
    Decoded(Kept(attrs))
  }

  /** Reading one well-formed pair off the front of an attribute string. */
  lemma ParsePair(name: string, escaped: string, rest: string)
    requires '=' !in name && '"' !in escaped
    ensures ParseAttributes(" " + (name + "=\"" + escaped + "\"") + rest) ==
      match ParseAttributes(rest)
      case None => None
      case Some(tail) => Some([(name, Unescape(escaped))] + tail)
  {
    var s := " " + (name + "=\"" + escaped + "\"") + rest;
    var r1 := "\"" + escaped + "\"" + rest;
    assert s[1..] == name + ['='] + r1;
    SplitAtFirst(name, '=', r1);
    assert r1[1..] == escaped + ['"'] + rest;
    SplitAtFirst(escaped, '"', rest);
  }

  lemma {:induction false} ParseSpaced(kept: seq<Entry>)
    requires forall a :: a in kept ==> '=' !in a.name
    ensures ParseAttributes(Spaced(Pairs(kept))) == Some(Decoded(kept))
    decreases |kept|
  {
    if kept != [] {
      ParseSpaced(kept[1..]);
      ParseStep(kept[0], kept[1..]);
      assert [kept[0]] + kept[1..] == kept;
    }
  }

  lemma ParseStep(a: Entry, tail: seq<Entry>)
    requires '=' !in a.name
    requires ParseAttributes(Spaced(Pairs(tail))) == Some(Decoded(tail))
    ensures ParseAttributes(Spaced(Pairs([a] + tail))) == Some(Decoded([a] + tail))
  {
    var rest := Spaced(Pairs(tail));
    SpacedPair(a, tail);
    EscapeNoQuote(Text(a.value));
    ParsePair(a.name, Escape(Text(a.value)), rest);
    UnescapeEscape(Text(a.value));
    DecodedCons(a, tail);
  }

  lemma SpacedPair(a: Entry, tail: seq<Entry>)
    ensures Spaced(Pairs([a] + tail)) == " " + Pair(a) + Spaced(Pairs(tail))
  {
    assert ([a] + tail)[1..] == tail;
    SpacedCons(Pair(a), Pairs(tail));
  }

  lemma DecodedCons(a: Entry, tail: seq<Entry>)
    ensures Decoded([a] + tail) == [(a.name, Text(a.value))] + Decoded(tail)
  {
    assert ([a] + tail)[1..] == tail;
  }

  lemma EscapeNoQuote(s: string)
    ensures '"' !in Escape(s)
  {
    var e := Escape(s);
    EscapeSafe(s);
    forall k | 0 <= k < |e| ensures e[k] != '"' {
      assert !Special(e[k]) || e[k] == '&';
    }
  }

  /**
   * The attribute string can be read back: it holds exactly the truthy
   * entries, in order, each with its text as it was before escaping.
   */
  lemma RenderParses(attrs: seq<Entry>)
    requires forall a :: a in attrs ==> '=' !in a.name
    ensures ParseAttributes(Render(attrs)) == Some(Visible(attrs))
  {
    KeptMembers(attrs);
    ParseSpaced(Kept(attrs));
  }

  /**
   * In an array with distinct keys, an entry shows up in the markup exactly
   * when its value is truthy: falsy values (0, "", "0", false, null, []) are
   * never rendered.
   */
  lemma RenderedIffTruthy(attrs: seq<Entry>, i: nat)
    requires UniqueNames(attrs) && i < |attrs|
    ensures (exists p :: p in Visible(attrs) && p.0 == attrs[i].name) <==> Truthy(attrs[i].value)
  {
    KeptMembers(attrs);
    var kept, a := Kept(attrs), attrs[i];
    if Truthy(a.value) {
      assert a in kept;
      var j :| 0 <= j < |kept| && kept[j] == a;
      DecodedAt(kept, j);
      assert Visible(attrs)[j] in Visible(attrs);
    } else {
      forall p | p in Visible(attrs) ensures p.0 != a.name {
        var j :| 0 <= j < |kept| && Visible(attrs)[j] == p;
        DecodedAt(kept, j);
        assert kept[j] in kept;
      }
    }
  }

  /** The merge keeps the keys, so distinct keys stay distinct. */
  lemma MergeUnique(base: seq<Entry>, overrides: seq<Entry>)
    requires UniqueNames(base)
    ensures UniqueNames(Merge(base, overrides))
  {
    var merged := Merge(base, overrides);
    forall i, j | 0 <= i < j < |merged| ensures merged[i].name != merged[j].name {
      assert Names(merged)[i] == Names(base)[i];
      assert Names(merged)[j] == Names(base)[j];
    }
  }
}
