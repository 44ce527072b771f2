/**
  The per-file and per-card loop of `main` in migrate.py: pick the `.htm`
  files, derive the section, decode the file, and for every model card in
  document order resolve its PDF against the drive map, synthesise its
  identifier and append the record to `all_data`.

  Parsing is a parameter (`parse` gives, per `model-card` element in
  document order, what the `find` calls returned), and so are reading a
  file (`disk`), the codecs and MD5.
 */
module Migration {
  import opened Wrappers
  import opened PyStrings
  import opened CardIds
  import opened SectionIds
  import opened Decoder

  /** The fixed `updatedAt` of every card */
  const UpdatedAt: string := "2023-10-27T10:00:00.000Z"

  /** The title of a card without a `model-title` heading */
  const Untitled: string := "Untitled"

  /** Appended to the name of a PDF that the map does not resolve */
  const NotFoundMarker: string := " (not found)"

  /** `drivePdfMap.json`: file name to drive id; `None` is a JSON `null`. */
  type PdfMap = map<string, Option<string>>

  /** The `pdf` object of a card; an `id` of `None` is written as `null`. */
  datatype PdfRef = PdfRef(id: Option<string>, name: string)

  /** One record of `all_data`. */
  datatype Card = Card(
    id: string,
    section: string,
    title: string,
    imageUrl: string,
    pdf: PdfRef,
    videoUrl: string,
    updatedAt: string)

  /**
    What the parser found in one `model-card` element: the stripped text of
    the `h3.model-title`, the `src` of `img.model-image`, and the `href`s of
    `a.video-btn` and `a.instruction-btn`; `None` when the element or the
    attribute is missing.
   */
  datatype CardElement = CardElement(
    titleText: Option<string>,
    imageSrc: Option<string>,
    videoHref: Option<string>,
    pdfHref: Option<string>)

  /** `pdf_map.get(name)` */
  function Lookup(pdfMap: PdfMap, name: string): Option<string> {
    if name in pdfMap then pdfMap[name] else None
  }

  /** `if pdf_id:` -- `None` and the empty string are false. */
  predicate Truthy(v: Option<string>) {
    v.Some? && v.value != ""
  }

  /** `pdf_name`: empty without a link, else the part of the `href` after the last `/`. */
  function PdfName(pdfHref: Option<string>): string {
    match pdfHref
    case None => ""
    case Some(href) => LastField(href, '/')
  }

  /**
    `pdf_data`. Without a link both fields are empty; a file name the map
    sends to a non-empty value gets that value; any other file name gets
    `null` and is marked as not found.
   */
  function ResolvePdf(pdfHref: Option<string>, pdfMap: PdfMap): (r: PdfRef)
    ensures r.id == Some("") <==> pdfHref.None?
    ensures pdfHref.None? ==> r.name == ""
    ensures pdfHref.Some? ==> '/' !in PdfName(pdfHref)
    ensures r.id.Some? && r.id.value != "" ==>
      r.name == PdfName(pdfHref) && r.name in pdfMap && pdfMap[r.name] == r.id
    ensures r.id.None? <==> pdfHref.Some? && !Truthy(Lookup(pdfMap, PdfName(pdfHref)))
    ensures r.id.None? ==> r.name == PdfName(pdfHref) + NotFoundMarker
  {
    match pdfHref
    case None => PdfRef(Some(""), "")
    case Some(href) =>
      var name := LastField(href, '/');
      var pdfId := Lookup(pdfMap, name);
      if Truthy(pdfId) then PdfRef(pdfId, name) else PdfRef(None, name + NotFoundMarker)
  }

  /** `x if found else default`, for a lookup that may have found nothing */
  function OrElse(v: Option<string>, default: string): string {
    match v
    case None => default
    case Some(s) => s
  }

  /** The record built for the card at position `idx` (counted from 1). */
  function AssembleCard(section: string, el: CardElement, idx: nat, pdfMap: PdfMap, md5: Md5Hex): Card {
    var title := OrElse(el.titleText, Untitled);
    Card(
      CardId(section, title, PdfName(el.pdfHref), idx, md5),
      section,
      title,
      OrElse(el.imageSrc, ""),
      ResolvePdf(el.pdfHref, pdfMap),
      OrElse(el.videoHref, ""),
      UpdatedAt)
  }

  /** The records of one file's cards, in document order, numbered from 1. */
  function FileCards(section: string, elements: seq<CardElement>, pdfMap: PdfMap, md5: Md5Hex): seq<Card> {
    Numbered(elements, CardMaker(section, pdfMap, md5))
  }

  /** `AssembleCard` for one file, as a function of the card and its number. */
  function CardMaker(section: string, pdfMap: PdfMap, md5: Md5Hex): (CardElement, nat) -> Card {
    (el: CardElement, idx: nat) => AssembleCard(section, el, idx, pdfMap, md5)
  }

  /** The section `main` gives a file: `generate_section_id(filename.replace('.htm', ''))` */
  function SectionOf(filename: string): string {
    SectionId(Replace(filename, ".htm", ""))
  }

  predicate IsHtmFile(filename: string) {
    EndsWith(filename, ".htm")
  }

  /** `[f for f in listing if f.endswith('.htm')]` */
  function HtmFiles(listing: seq<string>): (r: seq<string>)
    ensures forall i :: 0 <= i < |r| ==> EndsWith(r[i], ".htm")
    ensures forall i :: 0 <= i < |listing| && EndsWith(listing[i], ".htm") ==> listing[i] in r
    ensures forall f :: f in r ==> f in listing
  {
    Filter(listing, IsHtmFile)
  }

  /**
    What the run is given besides the directory listing: the bytes of each
    file, the codecs, the HTML parser, the drive map and MD5.
   */
  datatype Inputs = Inputs(
    disk: string -> seq<byte>,
    codecs: Codecs,
    parse: string -> seq<CardElement>,
    pdfMap: PdfMap,
    md5: Md5Hex)

  /** What one file adds to `all_data`: nothing when reading it raised. */
  function FileResult(filename: string, inputs: Inputs): (r: seq<Card>)
    ensures DecodeFile(inputs.disk(filename), inputs.codecs).None? ==> r == []
    ensures DecodeFile(inputs.disk(filename), inputs.codecs).Some? ==>
      |r| == |inputs.parse(DecodeFile(inputs.disk(filename), inputs.codecs).value)|
  {
    match DecodeFile(inputs.disk(filename), inputs.codecs)
    case None => []
    case Some(content) => FileCards(SectionOf(filename), inputs.parse(content), inputs.pdfMap, inputs.md5)
  }

  /** `all_data` after the given files, in their order. */
  function AllCards(files: seq<string>, inputs: Inputs): seq<Card> {
    Concat(files, (f: string) => FileResult(f, inputs))
  }

  /**
    migrate.py:130-168 for one card: the defaults for missing elements, the PDF
    resolution (reassigning `pdf_data` and `pdf_name`) and the record. The
    statements follow the script; `AssembleCard` is the same record as an
    expression, which the lemmas below reason about.
   */
  method BuildCard(sectionId: string, card: CardElement, idx: nat, pdfMap: PdfMap, md5: Md5Hex)
    returns (cardObj: Card)
    ensures cardObj == AssembleCard(sectionId, card, idx, pdfMap, md5)
  {
    var title := OrElse(card.titleText, Untitled);
    var imageUrl := OrElse(card.imageSrc, "");
    var videoUrl := OrElse(card.videoHref, "");

    var pdfData, pdfName := ResolvePdfLink(card.pdfHref, pdfMap);
    var cardId := GenerateCardId(sectionId, title, pdfName, idx, md5);
    cardObj := Card(cardId, sectionId, title, imageUrl, pdfData, videoUrl, UpdatedAt);
  }

  /**
    migrate.py:143-154: `pdf_data` and `pdf_name` start empty and are reassigned
    only when the card has a link. The statements follow the script;
    `ResolvePdf` is the same value as an expression, and its contract states
    the three outcomes.
   */
  method ResolvePdfLink(pdfHref: Option<string>, pdfMap: PdfMap) returns (pdfData: PdfRef, pdfName: string)
    ensures pdfData == ResolvePdf(pdfHref, pdfMap)
    ensures pdfName == PdfName(pdfHref)
  {
    pdfData := PdfRef(Some(""), "");
    pdfName := "";
    if pdfHref.Some? {
      var href := pdfHref.value;
      pdfName := LastField(href, '/');
      var pdfId := Lookup(pdfMap, pdfName);
      if Truthy(pdfId) {
        pdfData := PdfRef(pdfId, pdfName);
      } else {
        pdfData := PdfRef(None, pdfName + NotFoundMarker);
      }
    }
  }

  /**
    The loops of `main`: for each `.htm` file, and for each of its cards,
    build the record and append it to `all_data`.
   */
  method Migrate(listing: seq<string>, inputs: Inputs) returns (allData: seq<Card>)
    ensures allData == AllCards(HtmFiles(listing), inputs)
  {
    var files := HtmFiles(listing);
    allData := [];
    for f := 0 to |files|
      invariant allData == AllCards(files[..f], inputs)
    {
      var filename := files[f];
      AllCardsStep(files, f, inputs);
      var sectionId := SectionId(Replace(filename, ".htm", ""));
      var content := DecodeFile(inputs.disk(filename), inputs.codecs);
      if content.Some? {
        var cards := inputs.parse(content.value);
        allData := AppendCards(allData, sectionId, cards, inputs.pdfMap, inputs.md5);
      }
    }
    assert files[..|files|] == files;
  }

  /** The inner loop of `main`: `all_data.append(card_obj)` for each card, numbered from 1. */
  method AppendCards(allData: seq<Card>, sectionId: string, cards: seq<CardElement>, pdfMap: PdfMap, md5: Md5Hex)
    returns (extended: seq<Card>)
    ensures extended == allData + FileCards(sectionId, cards, pdfMap, md5)
  {
    extended := allData;
    for i := 0 to |cards|
      invariant extended == allData + FileCards(sectionId, cards[..i], pdfMap, md5)
    {
      var cardObj := BuildCard(sectionId, cards[i], i + 1, pdfMap, md5);
      NumberedAppend(allData, extended, cards, i, CardMaker(sectionId, pdfMap, md5), cardObj);
      extended := extended + [cardObj];
    }
    assert cards[..|cards|] == cards;
  }

  /** One more pass of the inner loop appends one record. */
  lemma FileCardsStep(section: string, elements: seq<CardElement>, i: nat, pdfMap: PdfMap, md5: Md5Hex)
    requires i < |elements|
    ensures FileCards(section, elements[..i + 1], pdfMap, md5)
         == FileCards(section, elements[..i], pdfMap, md5) + [AssembleCard(section, elements[i], i + 1, pdfMap, md5)]
  {
    NumberedStep(elements, i, CardMaker(section, pdfMap, md5));
  }

  /** One more pass of the outer loop appends one file's records. */
  lemma AllCardsStep(files: seq<string>, f: nat, inputs: Inputs)
    requires f < |files|
    ensures AllCards(files[..f + 1], inputs) == AllCards(files[..f], inputs) + FileResult(files[f], inputs)
  {
    assert files[..f + 1][..f] == files[..f];
  }

  // ---------------------------------------------------------------------
  // Properties
  // ---------------------------------------------------------------------

  /**
    The files' records follow each other in file order: the output for two
    runs of files is the output for the first followed by that for the second.
   */
  lemma AllCardsAppend(a: seq<string>, b: seq<string>, inputs: Inputs)
    ensures AllCards(a + b, inputs) == AllCards(a, inputs) + AllCards(b, inputs)
  {
    ConcatAppend(a, b, (f: string) => FileResult(f, inputs));
  }

  /**
    A file `stem.htm` (no dot in `stem`) is filed under the identifier of
    its stem: the extension goes, and nothing else.
   */
  lemma SectionOfHtmFile(stem: string)
    requires '.' !in stem
    ensures SectionOf(stem + ".htm") == SectionId(stem)
  {
    ReplaceSkipsPrefix(stem, ".htm", ".htm", "");
    assert Replace(".htm", ".htm", "") == "";
    assert stem + "" == stem;
  }

  /** A file that could not be read contributes no records. */
  lemma UnreadableFileAddsNothing(filename: string, inputs: Inputs)
    requires ReadUtf16(inputs.disk(filename), inputs.codecs).None?
    ensures FileResult(filename, inputs) == []
  {
  }

  /**
    Card `k` of a file (from 0) belongs to the file's section, is numbered
    `k + 1` in the hash of its identifier, carries its title or `Untitled`,
    its resolved PDF and the fixed timestamp.
   */
  lemma FileCardsInOrder(section: string, elements: seq<CardElement>, pdfMap: PdfMap, md5: Md5Hex, k: nat)
    requires k < |elements|
    ensures var cards := FileCards(section, elements, pdfMap, md5);
      var el := elements[k];
      && |cards| == |elements|
      && cards[k].section == section
      && cards[k].title == OrElse(el.titleText, Untitled)
      && cards[k].id == CardId(section, cards[k].title, PdfName(el.pdfHref), k + 1, md5)
      && cards[k].pdf == ResolvePdf(el.pdfHref, pdfMap)
      && cards[k].imageUrl == OrElse(el.imageSrc, "")
      && cards[k].videoUrl == OrElse(el.videoHref, "")
      && cards[k].updatedAt == UpdatedAt
  {
    NumberedIndex(elements, CardMaker(section, pdfMap, md5), k);
  }

  /** What every record of the output looks like. */
  predicate WellFormed(c: Card) {
    && SuffixLength < |c.id| <= MaxBaseLength + 1 + SuffixLength
    && c.id[|c.id| - SuffixLength - 1] == '-'
    && (forall i :: 0 <= i < |c.section| ==> InSectionAlphabet(c.section[i]))
    && c.updatedAt == UpdatedAt
  }

  lemma CardWellFormed(section: string, el: CardElement, idx: nat, pdfMap: PdfMap, md5: Md5Hex)
    requires forall i :: 0 <= i < |section| ==> InSectionAlphabet(section[i])
    ensures WellFormed(AssembleCard(section, el, idx, pdfMap, md5))
  {
    var title := OrElse(el.titleText, Untitled);
    CardIdShape(section, title, PdfName(el.pdfHref), idx, md5);
  }

  lemma FileCardsWellFormed(section: string, elements: seq<CardElement>, pdfMap: PdfMap, md5: Md5Hex)
    requires forall i :: 0 <= i < |section| ==> InSectionAlphabet(section[i])
    ensures forall c :: c in FileCards(section, elements, pdfMap, md5) ==> WellFormed(c)
  {
    var cards := FileCards(section, elements, pdfMap, md5);
    forall k | 0 <= k < |cards| ensures WellFormed(cards[k]) {
      NumberedIndex(elements, CardMaker(section, pdfMap, md5), k);
      CardWellFormed(section, elements[k], k + 1, pdfMap, md5);
    }
  }

  /**
    Every record `main` produces has an identifier of at most 85 characters
    ending in `-` and four hex digits, a section made of `[a-zа-я0-9-]`, and
    the fixed timestamp.
   */
  lemma {:induction false} AllCardsWellFormed(files: seq<string>, inputs: Inputs)
    ensures forall c :: c in AllCards(files, inputs) ==> WellFormed(c)
    decreases |files|
  {
    if files != [] {
      var last := files[|files| - 1];
      AllCardsWellFormed(files[..|files| - 1], inputs);
      assert AllCards(files, inputs) == AllCards(files[..|files| - 1], inputs) + FileResult(last, inputs);
      match DecodeFile(inputs.disk(last), inputs.codecs)
      case None =>
      case Some(content) => FileCardsWellFormed(SectionOf(last), inputs.parse(content), inputs.pdfMap, inputs.md5);
    }
  }

  /** The example of a resolved link: the last path segment is looked up. */
  lemma ResolvePdfExample()
    ensures ResolvePdf(Some("docs/avtomobil-288.pdf"), map["avtomobil-288.pdf" := Some("drive123")])
         == PdfRef(Some("drive123"), "avtomobil-288.pdf")
  {
    var href := "docs/avtomobil-288.pdf";
    assert href == "docs" + "/" + "avtomobil-288.pdf";
    LastFieldAfterSeparator("docs", "avtomobil-288.pdf", '/');
  }

  /** The last field is what follows the last separator. */
  lemma {:induction false} LastFieldAfterSeparator(front: string, back: string, sep: char)
    requires sep !in back
    ensures LastField(front + [sep] + back, sep) == back
    decreases |back|
  {
    var s := front + [sep] + back;
    if back == [] {
      assert s[|s| - 1] == sep;
    } else {
      assert s[..|s| - 1] == front + [sep] + back[..|back| - 1];
      assert s[|s| - 1] == back[|back| - 1];
      LastFieldAfterSeparator(front, back[..|back| - 1], sep);
    }
  }
}
