# migrate.py in Dafny

`migrate.py` turns the exported HTML pages of a product catalogue into one
JSON list of cards. It goes through the `.htm` files in order. It decodes
each file as UTF-16, or falls back to null-stripped UTF-8. It gives the file
a section identifier. For every `model-card` element in document order, it
builds a record:

- an identifier made of the section, a slug of the title, the first number
  of the PDF file name and four hex digits of an MD5 digest;
- the section;
- the title;
- the image and video links;
- the PDF resolved against a drive map;
- a fixed timestamp.

This project models that logic and proves the properties it is meant to
have.

Modules:

- `PyStrings`: the Python builtins the script relies on, as functions over
  sequences: `startswith`, `endswith`, substring `in`, `replace`
  (left-to-right, non-overlapping), `strip`/`lstrip`/`rstrip` of one
  character, `split(sep)[-1]`, `lower()`, `str(n)`, `enumerate(s, 1)` and
  character-class filtering.
- `CardIds`: `generate_card_id`. It is an imperative method, `GenerateCardId`,
  with the `for` loop and the `while '--' in …` loop of the source. It is
  proved equal to the specification function `CardId`, and the properties of
  `CardId` are proved as lemmas.
- `SectionIds`: `generate_section_id`, a pure function.
- `Decoder`: the branch choice of `read_utf16_file` and the removal of a
  leading U+FEFF in `main`. The UTF-16 and UTF-8 codecs are parameters;
  a UTF-16 decoder may fail.
- `Migration`: the body of `main`.
  - `Migrate` is the outer loop over files.
  - `AppendCards` is the inner loop that appends to `all_data`.
  - `BuildCard` and `ResolvePdfLink` cover one card.
  - Each method is proved equal to a specification function (`AllCards`,
    `FileCards`, `AssembleCard`, `ResolvePdf`), and lemmas state what those
    functions guarantee.
  - `BuildCard`, `ResolvePdfLink` and `CardIds.ExtractPdfNumber` repeat
    their functions statement for statement. They are kept because they
    show the script's reassignments of `pdf_data`, `pdf_name` and
    `pdf_number`; the properties are proved about the functions.

Inputs that the script gets from its environment are parameters of the
model:

- the directory listing;
- the bytes of each file;
- the codecs;
- the HTML parser, given as the attributes its `find` calls return per card;
- the drive map;
- MD5, as any function from strings to 32-character lower-case hex digests.

## Model

| member | source | states |
|---|---|---|
| `CardIds.GenerateCardId` | migrate.py:12-47 | The whole step-by-step computation of `generate_card_id` (both loops, strip, number, cut, suffix) yields exactly `CardId` of the four inputs, so the identifier is a deterministic function of section, title, PDF name and index |
| `CardIds.SlugTitle` | migrate.py:17-25 | The punctuation loop, then `replace('--','-')` repeated while `--` remains (terminating because each pass shortens the string), then `strip('-')`, produce `CleanTitle(title)`: lower-case, punctuation turned into hyphens, hyphen runs collapsed, both ends trimmed |
| `CardIds.HyphenateStep` | migrate.py:19-20 | One pass of the punctuation loop turns every occurrence of one more punctuation character into `-` and changes nothing else |
| `CardIds.CollapseOfReplace` | migrate.py:22-23 | One `replace('--', '-')` pass does not change the string obtained by collapsing every hyphen run, which is the loop invariant of the `while` loop |
| `CardIds.ContainsDoubleHyphen` | migrate.py:22 | The loop test `'--' in s` holds exactly when two adjacent characters of `s` are both hyphens |
| `CardIds.CollapseIdle` | migrate.py:22-23 | When the loop stops (no `--` left) the string is already fully collapsed |
| `CardIds.CollapseNoDouble` | migrate.py:22-23 | A collapsed string has no two adjacent hyphens |
| `CardIds.CleanTitleShape` | migrate.py:17-25 | The slug contains none of the characters `` [](){}.,!?;:"'«»—`` (including space), contains no `--`, and neither starts nor ends with `-` |
| `CardIds.CleanTitleContent` | migrate.py:17-25 | Ignoring hyphens, the slug is exactly the lower-cased title's characters that are neither punctuation nor hyphen, in their order |
| `CardIds.CollapseContent` | migrate.py:22-23 | Collapsing hyphen runs removes hyphens only |
| `CardIds.LStripContent` | migrate.py:25 | `lstrip('-')` removes hyphens only |
| `CardIds.RStripContent` | migrate.py:25 | `rstrip('-')` removes hyphens only |
| `CardIds.StripKeeps` | migrate.py:25 | Stripping hyphens from the ends keeps a string free of `--` and of the punctuation |
| `CardIds.DigitRunEnd` | migrate.py:32 | The end of the digit run that starts at `i`: every character before it is a digit, and it is the end of the string or a non-digit |
| `CardIds.FindNumber` | migrate.py:32-33 | The first match of `\d+`: `None` exactly when there is no digit; otherwise it starts at the first digit, covers only digits and cannot be extended |
| `CardIds.ExtractPdfNumber` | migrate.py:28-34 | The imperative `pdf_number` computation equals `PdfNumber(pdfName)` |
| `CardIds.PdfNumberEmpty` | migrate.py:28-34 | `pdf_number` is empty exactly when the PDF name holds no digit (an empty name holds none) |
| `CardIds.PdfNumberFirstRun` | migrate.py:28-34 | For a name of the form digit-free prefix, a maximal digit run, then anything, `pdf_number` is `-` followed by that run; later runs are ignored |
| `CardIds.Truncate` | migrate.py:40-41 | The cut `base_id` has at most 80 characters, is a prefix of the uncut one, equals it exactly when that is at most 80 long, and has exactly 80 otherwise |
| `CardIds.CardIdShape` | migrate.py:37-47 | The identifier is the cut `section-slug[-number]` (a prefix of it of length min(its length, 80)), then `-`, then the first four characters of the digest of `section + title + pdf_name + str(index)`; those four are hex digits, and the total length is between 6 and 85 |
| `PyStrings.DecimalString` | migrate.py:44 | `str(index)` is a non-empty string of decimal digits |
| `PyStrings.DecimalRoundTrip` | migrate.py:44 | Reading `str(n)` back as a decimal number gives `n`, so for the same section, title and PDF name different indexes give different hash inputs |
| `PyStrings.ReplaceOneByOne` | migrate.py:20 | `s.replace(x, y)` for single characters keeps the length and maps every `x` to `y` and every other character to itself |
| `PyStrings.ReplaceShrinks` | migrate.py:23 | Replacing a pattern by something shorter never lengthens the string, and makes it strictly shorter when the pattern occurs |
| `PyStrings.LStrip` | migrate.py:25 | `lstrip(c)` removes a prefix made only of `c`, and what remains does not start with `c` |
| `PyStrings.RStrip` | migrate.py:25 | `rstrip(c)` removes a suffix made only of `c`, and what remains does not end with `c` |
| `PyStrings.LastField` | migrate.py:148 | `split('/')[-1]` is a suffix of the link that contains no `/` and is preceded by `/` whenever it is not the whole link |
| `PyStrings.Filter` | migrate.py:60 | The filtered string holds only characters of the class, holds every character of the class that the input holds, holds nothing the input does not, and is no longer than the input |
| `PyStrings.ReplaceOneByNothing` | migrate.py:84 | `replace(b'\x00', b'')` is the same as keeping the elements other than zero, in order |
| `PyStrings.NumberedIndex` | migrate.py:128 | With `enumerate(cards, 1)`, entry `k` (from 0) is made from card `k` with the number `k + 1` |
| `PyStrings.NumberedAppend` | migrate.py:128 | An append after the first `i` cards yields the accumulated list over the first `i + 1` cards |
| `SectionIds.SectionId` | migrate.py:49-62 | Every character of a section identifier is in `[a-zа-я0-9-]`; in particular it has no `.`, space or `_` |
| `SectionIds.SectionIdOfClean` | migrate.py:49-62 | A string made only of the class is its own section identifier |
| `SectionIds.SectionIdIdempotent` | migrate.py:49-62 | Applying `generate_section_id` to its own output changes nothing |
| `SectionIds.SectionIdWithoutDots` | migrate.py:54-60 | For a name without dots the extension step does nothing: the identifier is the lower-cased name, with spaces and underscores turned into hyphens, filtered to the class |
| `SectionIds.ExtensionStepsOfHtml` | migrate.py:55 | `.replace('.htm','').replace('.html','')` on `x.html` (no dot in `x`) yields `xl` |
| `SectionIds.SectionIdOfHtml` | migrate.py:55 | Because `.htm` is removed first, the identifier of `stem.html` is the identifier of `stem` followed by `l` |
| `SectionIds.SectionIdHtmlExample` | migrate.py:55 | `x.html` becomes `xl` |
| `Decoder.ReadUtf16` | migrate.py:64-85 | The decision table. A `FF FE` prefix gives the little-endian reading, and fails when that decoder fails. A `FE FF` prefix gives the big-endian reading, and fails when that decoder fails. Without either prefix, the little-endian reading is used if it succeeds; otherwise the UTF-8 reading of the zero-stripped bytes is used, which cannot fail. Each branch is stated in both directions |
| `Decoder.StripNulls` | migrate.py:84 | The bytes handed to the UTF-8 decoder contain no zero byte, are the input's non-zero bytes in order, and keep the count of every non-zero byte value |
| `Decoder.MarkTestsCommute` | migrate.py:72-77 | `read_utf16_file` gives the same result on every input when the big-endian mark is tested before the little-endian one (`ReadUtf16BigEndianFirst`), because no input starts with both marks |
| `Decoder.StripBom` | migrate.py:111-112 | At most one character is removed, only from the front, and one is removed exactly when the text starts with U+FEFF; the rest is unchanged |
| `Decoder.StripBomOnce` | migrate.py:111-112 | A text starting with U+FEFF loses exactly that one mark, even when a second one follows |
| `Decoder.DecodeLittleEndianWithMark` | migrate.py:72-74 | A little-endian file with a mark whose decoding starts with U+FEFF reaches the parser without the mark |
| `Migration.ResolvePdf` | migrate.py:142-154 | With no link the PDF is `{id: "", name: ""}`. Otherwise the name is the last `/` segment, which has no `/`. A present, non-empty map value gives `{id: value, name}`. A missing, null or empty value gives `{id: null, name + " (not found)"}`, and the id is null exactly then |
| `Migration.ResolvePdfLink` | migrate.py:143-154 | The imperative reassignment of `pdf_data` and `pdf_name` yields `ResolvePdf` and the link's last segment |
| `Migration.BuildCard` | migrate.py:130-168 | The record built for one card, with defaults `Untitled` and `""` for missing elements, equals `AssembleCard` |
| `Migration.AppendCards` | migrate.py:128-168 | After the inner loop `all_data` is its old value followed by one record per card, in document order, numbered from 1 |
| `Migration.FileCardsStep` | migrate.py:128-168 | One more card adds one record, numbered after the others |
| `Migration.FileCardsInOrder` | migrate.py:128-168 | A file yields as many records as cards. Record `k` (from 0) has the file's section, the card's title or `Untitled`, its image and video links or `""`, its resolved PDF, the fixed timestamp, and an identifier generated with index `k + 1` |
| `Migration.Migrate` | migrate.py:95-168 | The result of the loops over files and cards equals `AllCards` over the `.htm` files of the listing, in listing order |
| `Migration.AllCardsStep` | migrate.py:100-168 | One more file appends that file's records |
| `Migration.AllCardsAppend` | migrate.py:100-168 | The records of two runs of files are those of the first run followed by those of the second |
| `Migration.UnreadableFileAddsNothing` | migrate.py:106-108 | A file whose reading raises contributes no records |
| `Migration.SectionOfHtmFile` | migrate.py:102 | A file `stem.htm` with no dot in `stem` gets the section identifier of `stem` |
| `Migration.CardWellFormed` | migrate.py:157-168 | A record built in a section made of `[a-zа-я0-9-]` is well formed: an identifier of at most 85 characters with `-` before its last four, the section in the class, and the fixed timestamp |
| `Migration.FileCardsWellFormed` | migrate.py:128-168 | Every record of a file is well formed |
| `Migration.AllCardsWellFormed` | migrate.py:95-168 | Every record in the output is well formed |
| `PyStrings.StartsWith` | migrate.py:72-75 | Definition of `startswith` (also at migrate.py:111): `s` begins with `p`; used by `Decoder.ReadUtf16`, `Decoder.StripBom` and `PyStrings.Replace` |
| `PyStrings.EndsWith` | migrate.py:95 | Definition of `endswith`: `s` finishes with `p`; its use is stated by `Migration.HtmFiles` |
| `PyStrings.Contains` | migrate.py:22 | Definition of substring `in`; `CardIds.ContainsDoubleHyphen` states what `'--' in s` means |
| `PyStrings.Replace` | migrate.py:19-23 | Definition of `str.replace` / `bytes.replace` for a non-empty pattern (also at migrate.py:55-56 and 84): scan left to right, replace each non-overlapping occurrence; its properties are `PyStrings.ReplaceOneByOne`, `ReplaceOneByNothing`, `ReplaceShrinks`, `ReplaceSkipsPrefix`, `ReplaceAbsent` and `ReplaceOneConcat` |
| `PyStrings.LowerChar` | migrate.py:17 | Definition of `lower()` on one character over A-Z, А-Я and Ѐ-Џ; `PyStrings.LowerCharKeepsNonLetters` states that only letters change, and only into lower-case letters |
| `PyStrings.Lower` | migrate.py:17 | `lower()` (also at migrate.py:54) keeps the length and lower-cases each character on its own; `PyStrings.LowerConcat` and `SectionIds.LowerKeepsAlphabet` state its properties |
| `PyStrings.Strip` | migrate.py:25 | Definition of `strip(c)` as `rstrip` after `lstrip`; `PyStrings.LStrip`, `PyStrings.RStrip`, `CardIds.LStripContent`, `CardIds.RStripContent` and `CardIds.StripKeeps` state its properties |
| `Decoder.DecodeFile` | migrate.py:108-112 | Reading fails exactly when `read_utf16_file` raises; otherwise the result is the decoded text with one leading U+FEFF removed. `Decoder.DecodeLittleEndianWithMark` is an instance |
| `Migration.Lookup` | migrate.py:149 | Definition of `pdf_map.get(name)`: the entry if present, else `None`; its use is stated by `Migration.ResolvePdf` |
| `Migration.Truthy` | migrate.py:151 | Definition of `if pdf_id:`: `None` and `""` are false; its use is stated by `Migration.ResolvePdf` |
| `Migration.PdfName` | migrate.py:144-148 | Definition of `pdf_name`: `""` without a link, else `split('/')[-1]` of the link; `PyStrings.LastField` and `Migration.ResolvePdf` state its properties |
| `Migration.HtmFiles` | migrate.py:95 | Every selected name ends in `.htm`, every name of the listing ending in `.htm` is selected, and nothing outside the listing is |
| `Migration.SectionOf` | migrate.py:102 | Definition of `generate_section_id(filename.replace('.htm', ''))`; `Migration.SectionOfHtmFile` states it for `stem.htm` |
| `Migration.FileResult` | migrate.py:106-174 | A file whose reading raises adds no records; a readable file adds exactly one record per parsed card. `Migration.UnreadableFileAddsNothing` and `Migration.FileCardsInOrder` give the details |
| `Migration.ResolvePdfExample` | migrate.py:146-152 | The link `docs/avtomobil-288.pdf`, with the map entry `avtomobil-288.pdf → drive123`, resolves to `{id: drive123, name: avtomobil-288.pdf}` |
| `Migration.LastFieldAfterSeparator` | migrate.py:148 | `split('/')[-1]` of `front/back`, with no `/` in `back`, is `back` |

## Left out

- Reading and writing files (`drivePdfMap.json`, the `converted_` copies, both `migrated_data` outputs, migrate.py:91-93, 114-118, 177-189). These are I/O. The bytes of each file and the drive map are inputs. The output is the list of records, not its JSON text.
- A failed write of the `converted_` copy (migrate.py:116-117). It would make `main` skip the file; the model assumes the write succeeds.
- `os.listdir` (migrate.py:95). The listing is a parameter, in the order the system gives. Only the `.endswith('.htm')` filter is modelled.
- BeautifulSoup (migrate.py:121-139). The parser is a parameter that gives, per `model-card` element in document order, the title text, the image `src`, and the video and PDF `href`s, each possibly missing. `get_text(strip=True)` is part of it.
- MD5 and `hexdigest()` (migrate.py:45). They are a parameter: any function whose result is 32 lower-case hex digits. The UTF-8 `encode()` before hashing is folded into it.
- The real UTF-16 and UTF-8 codecs (migrate.py:74, 77, 81, 84). They are parameters; the UTF-16 ones may fail.
- PyStrings.Lower: maps only A-Z, А-Я (U+0410..U+042F) and Ѐ-Џ (U+0400..U+040F, which includes Ё). Python's `str.lower()` covers all of Unicode, including characters that lower-case to more than one character.
- CardIds.FindNumber: matches only ASCII `0-9`. Python's `\d` also matches the other Unicode decimal digits.
- Migration.PdfMap: map values are a string or `null`. Other JSON values (numbers, lists) would reach `if pdf_id:` with Python's truthiness for them.
- The Windows stdout re-wrapping (migrate.py:8-10), the console `print`s, and the `ImportError` exit (migrate.py:191-198).
- Exceptions other than a failed UTF-16 decode. Migration.FileResult: a file's records are all or nothing. The model assumes the `print` at migrate.py:170 never raises. In the script it can raise on a console that cannot encode the title. The `except` at migrate.py:172-174 would then skip the rest of that file and keep the records already appended.
- `generate_section_id` reads as if it removed both `.htm` and `.html`. The code removes `.htm` first. For a stem without dots, `stem.html` therefore keeps a trailing `l`. Names with more dots can behave differently: `..htmhtm.html` becomes `.html` and then loses it. The model follows the code, and `SectionIds.SectionIdOfHtml` states the dot-free case. `main` only passes names from which `.htm` has already been removed.
