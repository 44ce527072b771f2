/**
  Reading one source file (`read_utf16_file` in migrate.py, and the removal
  of a left-over byte-order mark in `main`). The real UTF-16 and UTF-8
  codecs are parameters: a UTF-16 decoder may fail (Python raises), the
  UTF-8 decoder with `errors='ignore'` never does.
 */
module Decoder {
  import opened Wrappers
  import opened PyStrings

  type byte = b: int | 0 <= b < 256

  /** `b'\xff\xfe'` */
  const Utf16LeBom: seq<byte> := [0xFF, 0xFE]

  /** `b'\xfe\xff'` */
  const Utf16BeBom: seq<byte> := [0xFE, 0xFF]

  /** U+FEFF, the byte-order mark as a character */
  const Bom: char := '\U{FEFF}'

  /** The codecs the script calls; `None` is a decoding error. */
  datatype Codecs = Codecs(
    utf16le: seq<byte> -> Option<string>,
    utf16be: seq<byte> -> Option<string>,
    utf8IgnoringErrors: seq<byte> -> string)

  /** Which of the four ways of reading the file was taken. */
  datatype Branch = BomLittleEndian | BomBigEndian | AssumedLittleEndian | NullsStripped

  datatype Decoded = Decoded(text: string, branch: Branch)

  predicate NonZero(b: byte) {
    b != 0
  }

  /** `raw.replace(b'\x00', b'')`: every zero byte removed, nothing else touched. */
  function StripNulls(raw: seq<byte>): (r: seq<byte>)
    ensures 0 !in r
    ensures r == Filter(raw, NonZero)
    ensures forall b :: b != 0 ==> multiset(r)[b] == multiset(raw)[b]
  {
    ReplaceOneByNothing(raw, 0, NonZero);
    FilterMultiset(raw, NonZero);
    Replace(raw, [0], [])
  }

  /**
    `read_utf16_file` on the bytes of a file. `None` is the exception that
    escapes when a byte-order mark is present but its decoder fails; without
    a mark a failing little-endian decode falls back to the null-stripped
    UTF-8 reading, which cannot fail.
   */
  function ReadUtf16(raw: seq<byte>, codecs: Codecs): (r: Option<Decoded>)
    ensures r.Some? && r.value.branch == BomLittleEndian <==>
      StartsWith(raw, Utf16LeBom) && codecs.utf16le(raw).Some?
    ensures r.Some? && r.value.branch == BomBigEndian <==>
      StartsWith(raw, Utf16BeBom) && codecs.utf16be(raw).Some?
    ensures r.Some? && r.value.branch == AssumedLittleEndian <==>
      !StartsWith(raw, Utf16LeBom) && !StartsWith(raw, Utf16BeBom) && codecs.utf16le(raw).Some?
    ensures r.Some? && r.value.branch == NullsStripped <==>
      !StartsWith(raw, Utf16LeBom) && !StartsWith(raw, Utf16BeBom) && codecs.utf16le(raw).None?
    ensures r.None? <==>
      (StartsWith(raw, Utf16LeBom) && codecs.utf16le(raw).None?) ||
      (StartsWith(raw, Utf16BeBom) && codecs.utf16be(raw).None?)
    ensures r.Some? && r.value.branch in {BomLittleEndian, AssumedLittleEndian} ==>
      codecs.utf16le(raw) == Some(r.value.text)
    ensures r.Some? && r.value.branch == BomBigEndian ==>
      codecs.utf16be(raw) == Some(r.value.text)
    ensures r.Some? && r.value.branch == NullsStripped ==>
      r.value.text == codecs.utf8IgnoringErrors(StripNulls(raw))
  {
    if StartsWith(raw, Utf16LeBom) then
      match codecs.utf16le(raw)
      case Some(text) => Some(Decoded(text, BomLittleEndian))
      case None => None
    else if StartsWith(raw, Utf16BeBom) then
      match codecs.utf16be(raw)
      case Some(text) => Some(Decoded(text, BomBigEndian))
      case None => None
    else
      match codecs.utf16le(raw)
      case Some(text) => Some(Decoded(text, AssumedLittleEndian))
      case None => Some(Decoded(codecs.utf8IgnoringErrors(StripNulls(raw)), NullsStripped))
  }

  /**
    `content[1:]` when `content` starts with U+FEFF: at most one character
    goes, and only a leading mark.
   */
  function StripBom(content: string): (r: string)
    ensures |r| <= |content| && r == content[|content| - |r|..]
    ensures |content| - |r| == if |content| > 0 && content[0] == Bom then 1 else 0
  {
    if StartsWith(content, [Bom]) then content[1..] else content
  }

  /**
    What `main` goes on with after reading a file: nothing when reading
    raised, otherwise the decoded text without one leading mark.
   */
  function DecodeFile(raw: seq<byte>, codecs: Codecs): (r: Option<string>)
    ensures r.None? <==> ReadUtf16(raw, codecs).None?
    ensures r.Some? ==> r.value == StripBom(ReadUtf16(raw, codecs).value.text)
  {
    match ReadUtf16(raw, codecs)
    case None => None
    case Some(d) => Some(StripBom(d.text))
  }

  /** Exactly one mark is removed, even when a second one follows it. */
  lemma StripBomOnce(t: string)
    ensures StripBom([Bom] + t) == t
  {
  }

  /** A little-endian file with a mark is read as its text without the mark. */
  lemma DecodeLittleEndianWithMark(raw: seq<byte>, codecs: Codecs, t: string)
    requires StartsWith(raw, Utf16LeBom)
    requires codecs.utf16le(raw) == Some([Bom] + t)
    ensures DecodeFile(raw, codecs) == Some(t)
  {
  }

  /** The two marks exclude each other. */
  lemma MarksExclusive(raw: seq<byte>)
    ensures !(StartsWith(raw, Utf16LeBom) && StartsWith(raw, Utf16BeBom))
  {
  }

  /** `read_utf16_file` with the big-endian mark tested first. */
  function ReadUtf16BigEndianFirst(raw: seq<byte>, codecs: Codecs): Option<Decoded> {
    if StartsWith(raw, Utf16BeBom) then
      match codecs.utf16be(raw)
      case Some(text) => Some(Decoded(text, BomBigEndian))
      case None => None
    else if StartsWith(raw, Utf16LeBom) then
      match codecs.utf16le(raw)
      case Some(text) => Some(Decoded(text, BomLittleEndian))
      case None => None
    else
      match codecs.utf16le(raw)
      case Some(text) => Some(Decoded(text, AssumedLittleEndian))
      case None => Some(Decoded(codecs.utf8IgnoringErrors(StripNulls(raw)), NullsStripped))
  }

  /** Because no file starts with both marks, the order of the two tests does not matter. */
  lemma MarkTestsCommute(raw: seq<byte>, codecs: Codecs)
    ensures ReadUtf16(raw, codecs) == ReadUtf16BigEndianFirst(raw, codecs)
  {
    MarksExclusive(raw);
  }
}
