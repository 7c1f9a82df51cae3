/**
 * `htmlspecialchars($s, ENT_QUOTES, 'UTF-8')`: the five characters that are
 * special inside an HTML attribute are replaced by entities (with ENT_QUOTES
 * and the default HTML 4.01 table the single quote becomes `&#039;`), and
 * its inverse on the entities it produces.
 */
module Html {

  predicate StartsWith(s: string, prefix: string) {
    |prefix| <= |s| && s[..|prefix|] == prefix
  }

  /** The five characters `htmlspecialchars` replaces with ENT_QUOTES. */
  predicate Special(c: char) {
    c == '&' || c == '"' || c == '\'' || c == '<' || c == '>'
  }

  /** The entity `htmlspecialchars` writes for one character. */
  function EscapeChar(c: char): string {
    match c
    case '&' => "&amp;"
    case '"' => "&quot;"
    case '\'' => "&#039;"
    case '<' => "&lt;"
    case '>' => "&gt;"
    case _ => [c]
  }

  /** True when one of the five entities starts at position i of s. */
  predicate EntityAt(s: string, i: nat)
    requires i <= |s|
  {
    var t := s[i..];
    StartsWith(t, "&amp;") || StartsWith(t, "&quot;") || StartsWith(t, "&#039;")
    || StartsWith(t, "&lt;") || StartsWith(t, "&gt;")
  }

  /** `htmlspecialchars($s, ENT_QUOTES)`: every character replaced by its entity. */
  function Escape(s: string): (r: string)
    ensures |r| >= |s|
    decreases |s|
  {
    if s == [] then [] else EscapeChar(s[0]) + Escape(s[1..])
  }

  /**
   * The escaped text is safe inside a quoted attribute: no raw double quote,
   * single quote, `<` or `>` is left, and every `&` begins one of the five
   * entities.
   */
  lemma {:induction false} EscapeSafe(s: string)
    ensures forall k :: 0 <= k < |Escape(s)| ==> !Special(Escape(s)[k]) || Escape(s)[k] == '&'
    ensures forall k :: 0 <= k < |Escape(s)| && Escape(s)[k] == '&' ==> EntityAt(Escape(s), k)
    decreases |s|
  {
    if s != [] {
      EscapeSafe(s[1..]);
      var head, tail := EscapeChar(s[0]), Escape(s[1..]);
      var r := head + tail;
      assert r == Escape(s);
      forall k | 0 <= k < |r| ensures !Special(r[k]) || r[k] == '&' {
        if k >= |head| {
          assert r[k] == tail[k - |head|];
        }
      }
      forall k | 0 <= k < |r| && r[k] == '&' ensures EntityAt(r, k) {
        if k < |head| {
          assert k == 0 && r[k..] == head + tail;
        } else {
          assert tail[k - |head|] == '&';
          assert r[k..] == tail[k - |head|..];
        }
      }
    }
  }

  /** Decodes the five entities `Escape` produces; other text is copied. */
  function Unescape(s: string): string
    decreases |s|
  {
    if s == [] then []
    else if StartsWith(s, "&amp;") then ['&'] + Unescape(s[5..])
    else if StartsWith(s, "&quot;") then ['"'] + Unescape(s[6..])
    else if StartsWith(s, "&#039;") then ['\''] + Unescape(s[6..])
    else if StartsWith(s, "&lt;") then ['<'] + Unescape(s[4..])
    else if StartsWith(s, "&gt;") then ['>'] + Unescape(s[4..])
    else [s[0]] + Unescape(s[1..])
  }

  /** Unescaping one escaped character followed by any text yields that character first. */
  lemma UnescapeChar(c: char, rest: string)
    ensures Unescape(EscapeChar(c) + rest) == [c] + Unescape(rest)
  {
    var t := EscapeChar(c) + rest;
    if c == '&' {
      assert t[..5] == "&amp;" && t[5..] == rest;
    } else if c == '"' {
      assert !StartsWith(t, "&amp;") by { assert t[1] == 'q'; }
      assert t[..6] == "&quot;" && t[6..] == rest;
    } else if c == '\'' {
      assert !StartsWith(t, "&amp;") by { assert t[1] == '#'; }
      assert !StartsWith(t, "&quot;") by { assert t[1] == '#'; }
      assert t[..6] == "&#039;" && t[6..] == rest;
    } else if c == '<' {
      assert !StartsWith(t, "&amp;") by { assert t[1] == 'l'; }
      assert !StartsWith(t, "&quot;") by { assert t[1] == 'l'; }
      assert !StartsWith(t, "&#039;") by { assert t[1] == 'l'; }
      assert t[..4] == "&lt;" && t[4..] == rest;
    } else if c == '>' {
      assert !StartsWith(t, "&amp;") by { assert t[1] == 'g'; }
      assert !StartsWith(t, "&quot;") by { assert t[1] == 'g'; }
      assert !StartsWith(t, "&#039;") by { assert t[1] == 'g'; }
      assert !StartsWith(t, "&lt;") by { assert t[1] == 'g'; }
      assert t[..4] == "&gt;" && t[4..] == rest;
    } else {
      assert t[0] == c && t[1..] == rest;
      assert !StartsWith(t, "&amp;") && !StartsWith(t, "&quot;") && !StartsWith(t, "&#039;")
        && !StartsWith(t, "&lt;") && !StartsWith(t, "&gt;");
    }
  }

  /** Escaping loses nothing: decoding the entities gives the original text back. */
  lemma {:induction false} UnescapeEscape(s: string)
    ensures Unescape(Escape(s)) == s
    decreases |s|
  {
    if s != [] {
      UnescapeChar(s[0], Escape(s[1..]));
      UnescapeEscape(s[1..]);
      assert [s[0]] + s[1..] == s;
    }
  }

  /** Text without special characters is left as it is. */
  lemma {:induction false} EscapePlain(s: string)
    requires forall k :: 0 <= k < |s| ==> !Special(s[k])
    ensures Escape(s) == s
    decreases |s|
  {
    if s != [] {
      EscapePlain(s[1..]);
      assert [s[0]] + s[1..] == s;
    }
  }
}
