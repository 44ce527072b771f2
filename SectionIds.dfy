/**
  Section identifiers (`generate_section_id` in migrate.py): lower-case the
  name, remove `.htm` and then `.html`, turn spaces and underscores into
  hyphens, and drop every character outside `[a-zа-я0-9-]`.
 */
module SectionIds {
  import opened PyStrings

  /**
    The character class `[a-zа-я0-9-]`: Latin and Cyrillic lower-case letters
    (by code point, U+0430..U+044F, so `ё` is not in it), digits and hyphen.
   */
  predicate InSectionAlphabet(c: char) {
    ('a' <= c <= 'z') || ('\U{0430}' <= c <= '\U{044F}') || ('0' <= c <= '9') || c == '-'
  }

  /** The name after the three `replace` steps, before the character filter. */
  function Dashed(sectionName: string): string {
    var lowered := Lower(sectionName);
    var noExtension := Replace(Replace(lowered, ".htm", ""), ".html", "");
    Replace(Replace(noExtension, " ", "-"), "_", "-")
  }

  /** `generate_section_id`: only letters, digits and hyphens are left. */
  function SectionId(sectionName: string): (r: string)
    ensures forall i :: 0 <= i < |r| ==> InSectionAlphabet(r[i])
    ensures '.' !in r && ' ' !in r && '_' !in r
  {
    Filter(Dashed(sectionName), InSectionAlphabet)
  }

  /** Lower-casing leaves the characters of the class alone. */
  lemma LowerKeepsAlphabet(s: string)
    requires forall i :: 0 <= i < |s| ==> InSectionAlphabet(s[i])
    ensures Lower(s) == s
  {
  }

  /** A string made only of the class is its own identifier. */
  lemma SectionIdOfClean(s: string)
    requires forall i :: 0 <= i < |s| ==> InSectionAlphabet(s[i])
    ensures SectionId(s) == s
  {
    LowerKeepsAlphabet(s);
    ReplaceAbsent(s, ".htm", "");
    ReplaceAbsent(s, ".html", "");
    ReplaceAbsent(s, " ", "-");
    ReplaceAbsent(s, "_", "-");
    assert Dashed(s) == s;
    FilterKeepsAll(s, InSectionAlphabet);
  }

  /**
    A section identifier is its own identifier: running `generate_section_id`
    on its output changes nothing.
   */
  lemma SectionIdIdempotent(sectionName: string)
    ensures SectionId(SectionId(sectionName)) == SectionId(sectionName)
  {
    SectionIdOfClean(SectionId(sectionName));
  }

  /** Lower-casing a name without dots leaves it without dots. */
  lemma LowerKeepsNoDots(s: string)
    requires '.' !in s
    ensures '.' !in Lower(s)
  {
    var lowered := Lower(s);
    forall i | 0 <= i < |lowered| ensures lowered[i] != '.' {
      LowerCharKeepsNonLetters(s[i]);
    }
  }

  /**
    For a name without dots the extension steps do nothing: the identifier
    keeps the lower-cased characters of the class, with spaces and
    underscores as hyphens, in order.
   */
  lemma SectionIdWithoutDots(sectionName: string)
    requires '.' !in sectionName
    ensures SectionId(sectionName) ==
      Filter(Replace(Replace(Lower(sectionName), " ", "-"), "_", "-"), InSectionAlphabet)
  {
    var lowered := Lower(sectionName);
    LowerKeepsNoDots(sectionName);
    ReplaceAbsent(lowered, ".htm", "");
    ReplaceAbsent(lowered, ".html", "");
  }

  /** The two extension steps on `x.html`, for `x` without dots, leave `xl`. */
  lemma ExtensionStepsOfHtml(x: string)
    requires '.' !in x
    ensures Replace(Replace(x + ".html", ".htm", ""), ".html", "") == x + "l"
  {
    ReplaceSkipsPrefix(x, ".html", ".htm", "");
    assert Replace(".html", ".htm", "") == "l";
    ReplaceSkipsPrefix(x, "l", ".html", "");
    assert Replace("l", ".html", "") == "l";
  }

  /** The two hyphen steps on `xl` act on `x` only. */
  lemma HyphenStepsKeepL(x: string)
    ensures Replace(Replace(x + "l", " ", "-"), "_", "-") == Replace(Replace(x, " ", "-"), "_", "-") + "l"
  {
    ReplaceOneConcat(x, "l", ' ', "-");
    assert Replace("l", " ", "-") == "l";
    var spaced := Replace(x, " ", "-");
    ReplaceOneConcat(spaced, "l", '_', "-");
    assert Replace("l", "_", "-") == "l";
  }

  /**
    `.htm` is removed before `.html` is looked for, so a name ending in
    `.html` keeps the final `l`: the identifier of `stem + ".html"` is the
    identifier of `stem` followed by `l`.
   */
  lemma SectionIdOfHtml(stem: string)
    requires '.' !in stem
    ensures SectionId(stem + ".html") == SectionId(stem) + "l"
  {
    var lowered := Lower(stem);
    LowerConcat(stem, ".html");
    assert Lower(".html") == ".html";
    LowerKeepsNoDots(stem);
    ExtensionStepsOfHtml(lowered);
    HyphenStepsKeepL(lowered);
    ReplaceAbsent(lowered, ".htm", "");
    ReplaceAbsent(lowered, ".html", "");
    FilterConcat(Replace(Replace(lowered, " ", "-"), "_", "-"), "l", InSectionAlphabet);
    assert Filter("l", InSectionAlphabet) == "l";
  }

  /** The smallest case: `x.html` becomes `xl`, not `x`. */
  lemma SectionIdHtmlExample()
    ensures SectionId("x.html") == "xl"
  {
    assert "x" + ".html" == "x.html";
    SectionIdOfHtml("x");
    SectionIdOfClean("x");
    assert "x" + "l" == "xl";
  }
}
