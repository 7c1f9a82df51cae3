/**
 * The default attribute array of the Turnstile class and what it renders:
 * with no caller attributes only the class marker appears, and the site key
 * appears only when the caller's attributes carry it.
 */
module WidgetDefaults {
  import opened Wrappers
  import opened Php
  import opened Html
  import opened WidgetAttributes

  /** The default attribute array, in the order the class declares it. */
  function Defaults(): seq<Entry> { [
    Entry("class", Str("cf-turnstile")),
    Entry("data-sitekey", Str("")),
    Entry("data-theme", Str("")),
    Entry("data-size", Str("")),
    Entry("data-tabindex", Int(0)),
    Entry("data-language", Str("")),
    Entry("data-retry", Str("")),
    Entry("data-retry_interval", Int(0)),
    Entry("data-appearance", Str(""))
  ]
  }

  /** The nine default keys are distinct. */
  lemma DefaultsUnique()
    ensures UniqueNames(Defaults())
  {
    forall i, j | 0 <= i < j < |Defaults()| ensures Defaults()[i].name != Defaults()[j].name {
      var x, y := Defaults()[i].name, Defaults()[j].name;
      assert |x| != |y| || x[|x| - 1] != y[|y| - 1];
    }
  }

  /** No default is null, so each default key is `isset` for the merge. */
  lemma DefaultsSet()
    ensures forall i :: 0 <= i < |Defaults()| ==> Defaults()[i].value != Null
  {
  }

  /** No default key contains `=`, so a rendered pair splits at its first `=`. */
  lemma DefaultKeysPlain()
    ensures forall i :: 0 <= i < |Defaults()| ==> '=' !in Defaults()[i].name
  {
    assert Names(Defaults()) == ["class", "data-sitekey", "data-theme", "data-size", "data-tabindex",
      "data-language", "data-retry", "data-retry_interval", "data-appearance"];
    FirstKeysPlain();
    MiddleKeysPlain();
    LastKeysPlain();
    forall i | 0 <= i < |Defaults()| ensures '=' !in Defaults()[i].name {
      assert Defaults()[i].name == Names(Defaults())[i];
    }
  }

  lemma FirstKeysPlain()
    ensures '=' !in "class" && '=' !in "data-sitekey" && '=' !in "data-theme"
  {
    KeyPlain("class");
    KeyPlain("data-sitekey");
    KeyPlain("data-theme");
  }

  lemma MiddleKeysPlain()
    ensures '=' !in "data-size" && '=' !in "data-tabindex" && '=' !in "data-language"
  {
    KeyPlain("data-size");
    KeyPlain("data-tabindex");
    KeyPlain("data-language");
  }

  lemma LastKeysPlain()
    ensures '=' !in "data-retry" && '=' !in "data-retry_interval" && '=' !in "data-appearance"
  {
    KeyPlain("data-retry");
    KeyPlain("data-retry_interval");
    KeyPlain("data-appearance");
  }

  /** A key spelled with lower-case letters, `-` and `_` holds no `=`. */
  lemma KeyPlain(name: string)
    requires forall k :: 0 <= k < |name| ==> 'a' <= name[k] <= 'z' || name[k] == '-' || name[k] == '_'
    ensures '=' !in name
  {
  }

  /** With no caller attributes only the class marker is rendered. */
  lemma DefaultRender()
    ensures Render(Merge(Defaults(), [])) == " class=\"cf-turnstile\""
  {
    MergeNothing(Defaults());
    KeptDefaults();
    var p := Pair(Defaults()[0]);
    assert Pairs([Defaults()[0]]) == [p];
    assert Render(Defaults()) == " " + p;
    ClassPair();
    ClassLiteral();
  }

  /** Of the defaults only the class marker is truthy. */
  lemma KeptDefaults()
    ensures Kept(Defaults()) == [Defaults()[0]]
  {
  }

  lemma ClassPair()
    ensures Pair(Defaults()[0]) == "class=\"cf-turnstile\""
  {
    EscapeMarker();
    PlainPair("class", "cf-turnstile");
    ClassLiteral();
  }

  /** A string value that escaping leaves alone is quoted verbatim. */
  lemma PlainPair(name: string, text: string)
    requires Escape(text) == text
    ensures Pair(Entry(name, Str(text))) == name + "=\"" + text + "\""
  {
  }

  /**
   * The concatenations that spell the class marker, kept apart so that the
   * solver meets the literals with nothing else in scope.
   */
  lemma ClassLiteral()
    ensures "class" + "=\"" + "cf-turnstile" + "\"" == "class=\"cf-turnstile\""
    ensures " " + "class=\"cf-turnstile\"" == " class=\"cf-turnstile\""
  {
  }

  lemma EscapeMarker()
    ensures Escape("cf-turnstile") == "cf-turnstile"
  {
    var s := "cf-turnstile";
    forall k | 0 <= k < |s| ensures !Special(s[k]) {
      assert 'a' <= s[k] <= 'z' || s[k] == '-';
    }
    EscapePlain(s);
  }

  /**
   * The `data-sitekey` attribute is rendered exactly when the caller's
   * attributes carry a truthy value for it.
   */
  lemma SiteKeyOnlyFromAttributes(overrides: seq<Entry>)
    ensures (exists p :: p in Visible(Merge(Defaults(), overrides)) && p.0 == "data-sitekey")
        <==> Find(overrides, "data-sitekey").Some? && Truthy(Find(overrides, "data-sitekey").value)
  {
    var merged := Merge(Defaults(), overrides);
    DefaultsUnique();
    MergeUnique(Defaults(), overrides);
    assert merged[1].name == "data-sitekey" by {
      assert Names(merged)[1] == Names(Defaults())[1];
    }
    assert Defaults()[1] == Entry("data-sitekey", Str(""));
    RenderedIffTruthy(merged, 1);
  }

  /**
   * An attribute array with the default keys in the default order renders a
   * string that reads back as its truthy entries, and only default keys
   * ever appear in it.
   */
  lemma DefaultKeyedReadBack(attrs: seq<Entry>)
    requires Names(attrs) == Names(Defaults())
    ensures ParseAttributes(Render(attrs)) == Some(Visible(attrs))
    ensures forall p :: p in Visible(attrs) ==> p.0 in Names(Defaults())
  {
    DefaultKeysPlain();
    forall i | 0 <= i < |attrs| ensures attrs[i].name == Defaults()[i].name {
      assert Names(attrs)[i] == Names(Defaults())[i];
    }
    RenderParses(attrs);
    KeptMembers(attrs);
    var kept := Kept(attrs);
    forall p | p in Visible(attrs) ensures p.0 in Names(Defaults()) {
      var j :| 0 <= j < |kept| && Visible(attrs)[j] == p;
      DecodedAt(kept, j);
      assert kept[j] in attrs;
      var i :| 0 <= i < |attrs| && attrs[i] == kept[j];
      assert Names(Defaults())[i] == p.0;
    }
  }

  /**
   * Whatever the caller passed, the attribute string reads back as the
   * truthy entries of the merged array in default order, and only default
   * keys ever appear in it.
   */
  lemma MergedAttributesReadBack(overrides: seq<Entry>)
    ensures ParseAttributes(Render(Merge(Defaults(), overrides))) == Some(Visible(Merge(Defaults(), overrides)))
    ensures forall p :: p in Visible(Merge(Defaults(), overrides)) ==> p.0 in Names(Defaults())
  {
    DefaultKeyedReadBack(Merge(Defaults(), overrides));
  }
}
