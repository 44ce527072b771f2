/**
  Card identifiers (`generate_card_id` in migrate.py): a slug of the title,
  the first number of the PDF file name, the section in front, a hard cut at
  80 characters, and the first four hex digits of an MD5 digest behind.
 */
module CardIds {
  import opened Wrappers
  import opened PyStrings

  /** The characters the slug turns into hyphens, in the order the loop visits them. */
  const Punctuation: string := " [](){}.,!?;:\"'\U{00AB}\U{00BB}\U{2014}"

  /** `base_id` is cut to this many characters. */
  const MaxBaseLength: nat := 80

  /** Number of hex digits of the digest that end the identifier. */
  const SuffixLength: nat := 4

  predicate IsHexDigit(c: char) {
    '0' <= c <= '9' || 'a' <= c <= 'f'
  }

  /** What `hexdigest()` of an MD5 hash returns: 32 lower-case hex digits. */
  predicate IsHexDigest(d: string) {
    |d| == 32 && forall i :: 0 <= i < |d| ==> IsHexDigit(d[i])
  }

  /**
    `hashlib.md5(s.encode()).hexdigest()`, left uninterpreted: any function
    from strings to hex digests.
   */
  type Md5Hex = f: string -> string | forall s :: IsHexDigest(f(s))
    witness (s: string) => "00000000000000000000000000000000"

  // ---------------------------------------------------------------------
  // The slug of the title
  // ---------------------------------------------------------------------

  /** `s` with every character of `chars` turned into `-`. */
  function Hyphenate(s: string, chars: string): (r: string)
    ensures |r| == |s|
    ensures forall i :: 0 <= i < |s| ==> r[i] == if s[i] in chars then '-' else s[i]
  {
    seq(|s|, i requires 0 <= i < |s| => if s[i] in chars then '-' else s[i])
  }

  /** Every run of hyphens in `s` shortened to one hyphen. */
  function Collapse(s: string): string
    decreases |s|
  {
    if |s| >= 2 && s[0] == '-' && s[1] == '-' then Collapse(s[1..])
    else if s == [] then []
    else [s[0]] + Collapse(s[1..])
  }

  /** What the title becomes in the identifier. */
  function CleanTitle(title: string): string {
    Strip(Collapse(Hyphenate(Lower(title), Punctuation)), '-')
  }

  predicate HasDoubleHyphen(s: string) {
    exists i :: 0 <= i < |s| - 1 && s[i] == '-' && s[i + 1] == '-'
  }

  predicate NoneIn(s: string, chars: string) {
    forall i :: 0 <= i < |s| ==> s[i] !in chars
  }

  predicate NotHyphen(c: char) {
    c != '-'
  }

  /** The characters of the lower-cased title that survive in the slug. */
  predicate KeptInSlug(c: char) {
    c != '-' && c !in Punctuation
  }

  // ---------------------------------------------------------------------
  // The number taken from the PDF file name
  // ---------------------------------------------------------------------

  /** A half-open range `s[start..end]` of a string. */
  datatype Span = Span(start: nat, end: nat)

  predicate NoDigits(s: string) {
    forall i :: 0 <= i < |s| ==> !IsDigit(s[i])
  }

  predicate AllDigits(s: string) {
    forall i :: 0 <= i < |s| ==> IsDigit(s[i])
  }

  /** Where the run of digits that starts at `i` ends. */
  function DigitRunEnd(s: string, i: nat): (e: nat)
    requires i <= |s|
    ensures i <= e <= |s|
    ensures forall k :: i <= k < e ==> IsDigit(s[k])
    ensures e == |s| || !IsDigit(s[e])
    decreases |s| - i
  {
    if i < |s| && IsDigit(s[i]) then DigitRunEnd(s, i + 1) else i
  }

  /**
    The first match of the regular expression `\d+` in `s[i..]`, as
    `re.findall(r'\d+', s)[0]` finds it: it starts at the first digit and
    is maximal.
   */
  function FindNumber(s: string, i: nat): (r: Option<Span>)
    requires i <= |s|
    ensures r.None? <==> forall k :: i <= k < |s| ==> !IsDigit(s[k])
    ensures r.Some? ==>
      && i <= r.value.start < r.value.end <= |s|
      && (forall k :: i <= k < r.value.start ==> !IsDigit(s[k]))
      && (forall k :: r.value.start <= k < r.value.end ==> IsDigit(s[k]))
      && (r.value.end == |s| || !IsDigit(s[r.value.end]))
    decreases |s| - i
  {
    if i == |s| then None
    else if IsDigit(s[i]) then Some(Span(i, DigitRunEnd(s, i)))
    else FindNumber(s, i + 1)
  }

  /** `pdf_number`: `-` and the first number of the PDF file name, or nothing. */
  function PdfNumber(pdfName: string): string {
    if pdfName == [] then []
    else
      match FindNumber(pdfName, 0)
      case None => []
      case Some(sp) => "-" + pdfName[sp.start..sp.end]
  }

  // ---------------------------------------------------------------------
  // The identifier
  // ---------------------------------------------------------------------

  /** `base_id` cut to `MaxBaseLength` characters, wherever that falls. */
  function Truncate(full: string): (r: string)
    ensures |r| <= MaxBaseLength
    ensures StartsWith(full, r)
    ensures r == full <==> |full| <= MaxBaseLength
    ensures |full| > MaxBaseLength ==> |r| == MaxBaseLength
  {
    if |full| > MaxBaseLength then full[..MaxBaseLength] else full
  }

  /** The readable part of the identifier. */
  function BaseId(section: string, title: string, pdfName: string): string {
    Truncate(section + "-" + CleanTitle(title) + PdfNumber(pdfName))
  }

  /** `unique_string`, the text that is hashed. */
  function HashInput(section: string, title: string, pdfName: string, index: nat): string {
    section + title + pdfName + DecimalString(index)
  }

  /** The identifier `generate_card_id` returns. */
  function CardId(section: string, title: string, pdfName: string, index: nat, md5: Md5Hex): string {
    BaseId(section, title, pdfName) + "-" + md5(HashInput(section, title, pdfName, index))[..SuffixLength]
  }

  /**
    migrate.py:17-25, the start of `generate_card_id`: lower-case the title, one `replace`
    per punctuation character, `replace('--', '-')` while a double hyphen
    is left, then `strip('-')`.
   */
  method SlugTitle(title: string) returns (cleanTitle: string)
    ensures cleanTitle == CleanTitle(title)
  {
    cleanTitle := Lower(title);
    for k := 0 to |Punctuation|
      invariant cleanTitle == Hyphenate(Lower(title), Punctuation[..k])
    {
      HyphenateStep(Lower(title), k);
      cleanTitle := Replace(cleanTitle, [Punctuation[k]], "-");
    }
    assert Punctuation[..|Punctuation|] == Punctuation;
    ghost var hyphenated := cleanTitle;
    while Contains(cleanTitle, "--")
      invariant Collapse(cleanTitle) == Collapse(hyphenated)
      decreases |cleanTitle|
    {
      CollapseOfReplace(cleanTitle);
      ReplaceShrinks(cleanTitle, "--", "-");
      cleanTitle := Replace(cleanTitle, "--", "-");
    }
    ContainsDoubleHyphen(cleanTitle);
    CollapseIdle(cleanTitle);
    cleanTitle := Strip(cleanTitle, '-');
  }

  /**
    migrate.py:28-34: `pdf_number` stays empty unless the file name holds a
    number. The statements follow the script's reassignments one by one;
    `PdfNumber` is the same value as an expression, and the lemmas about it
    say what it is.
   */
  method ExtractPdfNumber(pdfName: string) returns (pdfNumber: string)
    ensures pdfNumber == PdfNumber(pdfName)
  {
    pdfNumber := "";
    if pdfName != "" {
      var numbers := FindNumber(pdfName, 0);
      if numbers.Some? {
        pdfNumber := "-" + pdfName[numbers.value.start..numbers.value.end];
      }
    }
  }

  /**
    `generate_card_id`, step by step as the script does it: the slug, the
    PDF number, the cut and the hash suffix.
   */
  method GenerateCardId(section: string, title: string, pdfName: string, index: nat, md5: Md5Hex)
    returns (id: string)
    ensures id == CardId(section, title, pdfName, index, md5)
  {
    var cleanTitle := SlugTitle(title);

    var pdfNumber := ExtractPdfNumber(pdfName);

    var baseId := section + "-" + cleanTitle + pdfNumber;
    if |baseId| > MaxBaseLength {
      baseId := baseId[..MaxBaseLength];
    }

    var uniqueString := section + title + pdfName + DecimalString(index);
    var hashSuffix := md5(uniqueString)[..SuffixLength];
    id := baseId + "-" + hashSuffix;
  }

  // ---------------------------------------------------------------------
  // Properties
  // ---------------------------------------------------------------------

  /** One pass of the punctuation loop turns one more character into `-`. */
  lemma HyphenateStep(s: string, k: nat)
    requires k < |Punctuation|
    ensures Replace(Hyphenate(s, Punctuation[..k]), [Punctuation[k]], "-")
         == Hyphenate(s, Punctuation[..k + 1])
  {
    var before := Hyphenate(s, Punctuation[..k]);
    ReplaceOneByOne(before, Punctuation[k], '-');
    assert Punctuation[..k + 1] == Punctuation[..k] + [Punctuation[k]];
  }

  /** Two adjacent hyphens lie at the front or further on. */
  lemma DoubleHyphenCases(s: string)
    requires |s| > 0
    ensures HasDoubleHyphen(s) <==>
      (|s| >= 2 && s[0] == '-' && s[1] == '-') || HasDoubleHyphen(s[1..])
  {
    if HasDoubleHyphen(s[1..]) {
      var i :| 0 <= i < |s[1..]| - 1 && s[1..][i] == '-' && s[1..][i + 1] == '-';
      assert s[i + 1] == '-' && s[i + 2] == '-';
    }
    if HasDoubleHyphen(s) && !(|s| >= 2 && s[0] == '-' && s[1] == '-') {
      var i :| 0 <= i < |s| - 1 && s[i] == '-' && s[i + 1] == '-';
      assert i > 0;
      assert s[1..][i - 1] == '-' && s[1..][i] == '-';
    }
  }

  /** `'--' in s` is exactly "two adjacent hyphens somewhere". */
  lemma {:induction false} ContainsDoubleHyphen(s: string)
    ensures Contains(s, "--") <==> HasDoubleHyphen(s)
    decreases |s|
  {
    if |s| > 0 {
      ContainsDoubleHyphen(s[1..]);
      DoubleHyphenCases(s);
      assert StartsWith(s, "--") <==> (|s| >= 2 && s[0] == '-' && s[1] == '-') by {
        if |s| >= 2 { assert s[..2] == [s[0], s[1]]; }
      }
    }
  }

  /** One unfolding of `Collapse` on a string with a known first character. */
  lemma CollapseCons(c: char, x: string)
    ensures Collapse([c] + x) ==
      if c == '-' && |x| > 0 && x[0] == '-' then Collapse(x) else [c] + Collapse(x)
  {
    assert ([c] + x)[1..] == x;
  }

  lemma {:induction false} CollapseHead(s: string)
    ensures |Collapse(s)| > 0 <==> |s| > 0
    ensures |s| > 0 ==> Collapse(s)[0] == s[0]
    decreases |s|
  {
    if |s| >= 2 && s[0] == '-' && s[1] == '-' {
      CollapseHead(s[1..]);
    }
  }

  /** `replace('--', '-')` keeps the first character a hyphen exactly when it was. */
  lemma ReplaceDoubleHyphenHead(t: string)
    ensures var r := Replace(t, "--", "-");
      (|r| > 0 && r[0] == '-') <==> (|t| > 0 && t[0] == '-')
  {
  }

  /** A pass of the `while` loop does not change what `Collapse` makes of the title. */
  lemma {:induction false} CollapseOfReplace(s: string)
    ensures Collapse(Replace(s, "--", "-")) == Collapse(s)
    decreases |s|
  {
    if StartsWith(s, "--") {
      var t := s[2..];
      CollapseOfReplace(t);
      ReplaceDoubleHyphenHead(t);
      assert Replace(s, "--", "-") == ['-'] + Replace(t, "--", "-");
      CollapseCons('-', Replace(t, "--", "-"));
      assert s[1..] == ['-'] + t;
      CollapseCons('-', t);
    } else if s != [] {
      var t := s[1..];
      CollapseOfReplace(t);
      ReplaceDoubleHyphenHead(t);
      assert Replace(s, "--", "-") == [s[0]] + Replace(t, "--", "-");
      assert s == [s[0]] + t;
      CollapseCons(s[0], Replace(t, "--", "-"));
      CollapseCons(s[0], t);
    }
  }

  /** Once the loop condition is false, `Collapse` has nothing left to do. */
  lemma {:induction false} CollapseIdle(s: string)
    requires !HasDoubleHyphen(s)
    ensures Collapse(s) == s
    decreases |s|
  {
    if s != [] {
      DoubleHyphenCases(s);
      CollapseIdle(s[1..]);
      assert !(|s| >= 2 && s[0] == '-' && s[1] == '-');
    }
  }

  lemma {:induction false} CollapseNoDouble(s: string)
    ensures !HasDoubleHyphen(Collapse(s))
    decreases |s|
  {
    if |s| >= 2 && s[0] == '-' && s[1] == '-' {
      CollapseNoDouble(s[1..]);
    } else if s != [] {
      var t := s[1..];
      CollapseNoDouble(t);
      CollapseHead(t);
      var r := Collapse(s);
      assert r == [s[0]] + Collapse(t);
      forall i | 0 <= i < |r| - 1
        ensures !(r[i] == '-' && r[i + 1] == '-')
      {
        if i > 0 {
          assert r[i] == Collapse(t)[i - 1] && r[i + 1] == Collapse(t)[i];
        }
      }
    }
  }

  lemma {:induction false} CollapseNoneIn(s: string, chars: string)
    requires NoneIn(s, chars)
    ensures NoneIn(Collapse(s), chars)
    decreases |s|
  {
    if s != [] {
      CollapseNoneIn(s[1..], chars);
    }
  }

  lemma {:induction false} FilterHyphens(s: string)
    requires forall i :: 0 <= i < |s| ==> s[i] == '-'
    ensures Filter(s, NotHyphen) == []
    decreases |s|
  {
    if s != [] {
      FilterHyphens(s[1..]);
    }
  }

  /** `lstrip('-')` removes hyphens only. */
  lemma LStripContent(s: string)
    ensures Filter(LStrip(s, '-'), NotHyphen) == Filter(s, NotHyphen)
  {
    var l := LStrip(s, '-');
    var front := s[..|s| - |l|];
    assert s == front + l;
    FilterConcat(front, l, NotHyphen);
    FilterHyphens(front);
  }

  /** `rstrip('-')` removes hyphens only. */
  lemma RStripContent(s: string)
    ensures Filter(RStrip(s, '-'), NotHyphen) == Filter(s, NotHyphen)
  {
    var r := RStrip(s, '-');
    var back := s[|r|..];
    assert s == r + back;
    FilterConcat(r, back, NotHyphen);
    FilterHyphens(back);
  }

  /** Collapsing hyphen runs removes hyphens only. */
  lemma {:induction false} CollapseContent(s: string)
    ensures Filter(Collapse(s), NotHyphen) == Filter(s, NotHyphen)
    decreases |s|
  {
    if s != [] {
      CollapseContent(s[1..]);
    }
  }

  /** The punctuation step turns exactly the punctuation into hyphens. */
  lemma {:induction false} HyphenateContent(s: string)
    ensures Filter(Hyphenate(s, Punctuation), NotHyphen) == Filter(s, KeptInSlug)
    decreases |s|
  {
    if s != [] {
      HyphenateContent(s[1..]);
      assert Hyphenate(s, Punctuation) == [Hyphenate(s, Punctuation)[0]] + Hyphenate(s[1..], Punctuation);
    }
  }

  /** A piece of a string free of `--` and of `chars` is free of them too. */
  lemma SliceKeeps(c: string, chars: string, lo: nat, hi: nat)
    requires lo <= hi <= |c|
    requires !HasDoubleHyphen(c) && NoneIn(c, chars)
    ensures !HasDoubleHyphen(c[lo..hi]) && NoneIn(c[lo..hi], chars)
  {
    var r := c[lo..hi];
    forall i | 0 <= i < |r| - 1 ensures !(r[i] == '-' && r[i + 1] == '-') {
      assert r[i] == c[lo + i] && r[i + 1] == c[lo + i + 1];
    }
    forall i | 0 <= i < |r| ensures r[i] !in chars {
      assert r[i] == c[lo + i];
    }
  }

  /** Cutting hyphens off the ends keeps a string free of `--` and of `chars`. */
  lemma StripKeeps(c: string, chars: string)
    requires !HasDoubleHyphen(c) && NoneIn(c, chars)
    ensures !HasDoubleHyphen(Strip(c, '-')) && NoneIn(Strip(c, '-'), chars)
  {
    var l := LStrip(c, '-');
    SliceKeeps(c, chars, |c| - |l|, |c|);
    var r := RStrip(l, '-');
    SliceKeeps(l, chars, 0, |r|);
  }

  /** The slug has none of the punctuation characters, no `--` and no hyphen at either end. */
  lemma CleanTitleShape(title: string)
    ensures var r := CleanTitle(title);
      && NoneIn(r, Punctuation)
      && !Contains(r, "--")
      && (|r| > 0 ==> r[0] != '-' && r[|r| - 1] != '-')
  {
    var h := Hyphenate(Lower(title), Punctuation);
    var c := Collapse(h);
    var l := LStrip(c, '-');
    var r := RStrip(l, '-');
    assert r == CleanTitle(title);
    CollapseNoneIn(h, Punctuation);
    CollapseNoDouble(h);
    StripKeeps(c, Punctuation);
    ContainsDoubleHyphen(r);
    if |r| > 0 {
      assert r[0] == l[0];
    }
  }

  /**
    Hyphens aside, the slug keeps every character of the lower-cased title
    that is not punctuation, in order.
   */
  lemma CleanTitleContent(title: string)
    ensures Filter(CleanTitle(title), NotHyphen) == Filter(Lower(title), KeptInSlug)
  {
    var h := Hyphenate(Lower(title), Punctuation);
    var c := Collapse(h);
    var l := LStrip(c, '-');
    RStripContent(l);
    LStripContent(c);
    CollapseContent(h);
    HyphenateContent(Lower(title));
  }

  /** `pdf_number` is empty exactly when the file name holds no digit. */
  lemma PdfNumberEmpty(pdfName: string)
    ensures PdfNumber(pdfName) == [] <==> NoDigits(pdfName)
  {
  }

  /**
    When the file name has a digit, `pdf_number` is `-` and its first maximal
    run of digits; whatever follows that run is ignored.
   */
  lemma PdfNumberFirstRun(pre: string, run: string, post: string)
    requires NoDigits(pre) && |run| > 0 && AllDigits(run)
    requires post == [] || !IsDigit(post[0])
    ensures PdfNumber(pre + run + post) == "-" + run
  {
    var s := pre + run + post;
    assert IsDigit(s[|pre|]);
    var sp := FindNumber(s, 0).value;
    assert forall k :: 0 <= k < |pre| ==> s[k] == pre[k];
    assert forall k :: |pre| <= k < |pre| + |run| ==> s[k] == run[k - |pre|];
    assert IsDigit(s[sp.start]);
    assert sp.start == |pre|;
    assert |pre| + |run| < |s| ==> s[|pre| + |run|] == post[0];
    assert sp.end == |pre| + |run|;
    assert s[sp.start..sp.end] == run;
  }

  /**
    The identifier is the readable part, a hyphen and four hex digits taken
    from the front of the digest of section, raw title, PDF file name and
    index; the readable part is `section-slug[-number]` cut to 80
    characters, so the whole is at most 85 characters long.
   */
  lemma CardIdShape(section: string, title: string, pdfName: string, index: nat, md5: Md5Hex)
    ensures var id := CardId(section, title, pdfName, index, md5);
      var full := section + "-" + CleanTitle(title) + PdfNumber(pdfName);
      var digest := md5(section + title + pdfName + DecimalString(index));
      && 6 <= |id| <= MaxBaseLength + 1 + SuffixLength
      && id[|id| - 5] == '-'
      && id[|id| - 4..] == digest[..4]
      && (forall i :: |id| - 4 <= i < |id| ==> IsHexDigit(id[i]))
      && StartsWith(full, id[..|id| - 5])
      && |id[..|id| - 5]| == if |full| <= MaxBaseLength then |full| else MaxBaseLength
  {
    var id := CardId(section, title, pdfName, index, md5);
    var digest := md5(HashInput(section, title, pdfName, index));
    var base := BaseId(section, title, pdfName);
    assert id == base + "-" + digest[..4];
    assert id[..|id| - 5] == base;
    assert id[|id| - 4..] == digest[..4];
    forall i | |id| - 4 <= i < |id| ensures IsHexDigit(id[i]) {
      assert id[i] == digest[i - (|id| - 4)];
    }
  }
}
