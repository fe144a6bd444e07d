/** Text extraction from an upload: dispatch on the detected format to one
    of three decoders, map failures to the service's two errors, and
    normalise the extracted text into trimmed, non-blank lines. */
module Extraction {
  import opened Wrappers
  import opened Text
  import opened Formats

  newtype byte = b: int | 0 <= b < 256

  /** What a library call did: returned a value, or raised an exception whose
      message is kept. */
  datatype Outcome<T> = Returned(value: T) | Raised(message: string)

  /** The three decoders, which are library code: a PDF text extractor (which
      may raise, and may return nothing), a DOCX reader giving the text of
      each body paragraph (which may raise), and a lossy UTF-8 decoder that
      drops undecodable bytes and so never raises. */
  datatype Decoders = Decoders(
    pdf: seq<byte> -> Outcome<Option<string>>,
    docx: seq<byte> -> Outcome<seq<string>>,
    utf8: seq<byte> -> string)

  /** The two errors extraction reports to its caller. */
  datatype ExtractError = Unsupported | ParseFailed(message: string) {

    /** The HTTP status the error is raised with. */
    function Status(): int {
      match this
      case Unsupported => 400
      case ParseFailed(_) => 422
    }

    function Detail(): string {
      match this
      case Unsupported => "Unsupported file type. Please upload PDF, DOCX, or TXT."
      case ParseFailed(m) => "Failed to parse document: " + m
    }
  }

  /** The dispatch inside the try block: the decoder for the format, with an
      exception from a decoder turned into ParseFailed; an unknown format
      gives Unsupported, which the block re-raises unchanged. */
  function Decode(format: Format, raw: seq<byte>, decoders: Decoders): Result<string, ExtractError> {
    match format
    case Pdf =>
      (match decoders.pdf(raw)
       case Returned(text) => Ok(if text.Some? then text.value else "")
       case Raised(m) => Err(ParseFailed(m)))
    case Docx =>
      (match decoders.docx(raw)
       case Returned(paragraphs) => Ok(Join(paragraphs, "\n"))
       case Raised(m) => Err(ParseFailed(m)))
    case Txt => Ok(decoders.utf8(raw))
    case Unknown => Err(Unsupported)
  }

  /** The lines of the normalised text: each line stripped, blank lines dropped. */
  function NormalizedLines(text: string): seq<string> {
    StripNonBlank(SplitLines(text))
  }

  /** The normalised lines joined with "\n". Its lines are exactly the
      stripped non-blank lines of the input, each equal to its own strip and
      none empty. */
  function Normalize(text: string): (r: string)
    ensures SplitLines(r) == NormalizedLines(text)
    ensures forall k :: 0 <= k < |SplitLines(r)| ==>
      SplitLines(r)[k] != [] && Strip(SplitLines(r)[k]) == SplitLines(r)[k]
  {
    var lines := NormalizedLines(text);
    forall k | 0 <= k < |lines| ensures lines[k] != [] && NoLineBreak(lines[k]) {
      KeptInOrder(SplitLines(text));
      StripKeepsNoLineBreak(SplitLines(text)[KeptPositions(SplitLines(text), 0)[k]]);
    }
    SplitLinesOfJoinExact(lines);
    Join(lines, "\n")
  }

  /** Normalising normalised text changes nothing. */
  lemma NormalizeIdempotent(text: string)
    ensures Normalize(Normalize(text)) == Normalize(text)
  {
    var lines := NormalizedLines(text);
    StripNonBlankFixed(lines);
  }

  /** The normalised lines are the non-blank lines of the input, stripped, in
      their original order; no non-blank line is dropped. */
  lemma NormalizeKeepsOrder(text: string)
    ensures var source := SplitLines(text);
      var ps := KeptPositions(source, 0);
      var lines := SplitLines(Normalize(text));
      && |ps| == |lines|
      && (forall k :: 0 <= k < |ps| ==> ps[k] < |source| && lines[k] == Strip(source[ps[k]]))
      && (forall k, l :: 0 <= k < l < |ps| ==> ps[k] < ps[l])
      && (forall i :: 0 <= i < |source| ==> (i in ps <==> !AllSpace(source[i])))
  {
    var source := SplitLines(text);
    KeptInOrder(source);
    forall i | 0 <= i < |source| ensures Strip(source[i]) != [] <==> !AllSpace(source[i]) {
      StripSpec(source[i]);
    }
  }

  /** extract_text_from_upload: detect the format, decode, normalise. */
  function ExtractText(filename: Option<string>, contentType: Option<string>, raw: seq<byte>,
                       decoders: Decoders): Result<string, ExtractError>
  {
    match Decode(DetectFormat(filename, contentType), raw, decoders)
    case Ok(text) => Ok(Normalize(text))
    case Err(e) => Err(e)
  }

  /** The unsupported-type error, raised with status 400 and the message
      naming the accepted types, comes exactly from an "unknown" format. */
  lemma UnsupportedExactlyWhenUnknown(filename: Option<string>, contentType: Option<string>,
                                      raw: seq<byte>, decoders: Decoders)
    ensures ExtractText(filename, contentType, raw, decoders) == Err(Unsupported)
        <==> DetectFormat(filename, contentType) == Unknown
    ensures var r := ExtractText(filename, contentType, raw, decoders);
      (r.Err? && r.error.Status() == 400
       && r.error.Detail() == "Unsupported file type. Please upload PDF, DOCX, or TXT.")
        <==> DetectFormat(filename, contentType) == Unknown
  {
  }

  /** The parse-failure error, raised with status 422 and the message
      "Failed to parse document: " followed by the exception's message, comes
      exactly from an exception raised by the decoder of the detected format. */
  lemma ParseFailedOnlyFromDecoder(filename: Option<string>, contentType: Option<string>,
                                   raw: seq<byte>, decoders: Decoders, message: string)
    ensures ExtractText(filename, contentType, raw, decoders) == Err(ParseFailed(message))
        <==> ((DetectFormat(filename, contentType) == Pdf && decoders.pdf(raw) == Raised(message))
              || (DetectFormat(filename, contentType) == Docx && decoders.docx(raw) == Raised(message)))
    ensures var r := ExtractText(filename, contentType, raw, decoders);
      (r.Err? && r.error.Status() == 422 && r.error.Detail() == "Failed to parse document: " + message)
        <==> ((DetectFormat(filename, contentType) == Pdf && decoders.pdf(raw) == Raised(message))
              || (DetectFormat(filename, contentType) == Docx && decoders.docx(raw) == Raised(message)))
  {
    var r := ExtractText(filename, contentType, raw, decoders);
    var prefix := "Failed to parse document: ";
    if r.Err? && r.error.ParseFailed? && r.error.Detail() == prefix + message {
      assert r.error.Detail() == prefix + r.error.message;
      assert (prefix + r.error.message)[|prefix|..] == r.error.message;
      assert (prefix + message)[|prefix|..] == message;
    }
  }

  /** A successful extraction is already normalised: normalising it again
      changes nothing, and each of its lines is stripped and non-empty. */
  lemma SuccessIsNormalized(filename: Option<string>, contentType: Option<string>,
                            raw: seq<byte>, decoders: Decoders)
    requires ExtractText(filename, contentType, raw, decoders).Ok?
    ensures var text := ExtractText(filename, contentType, raw, decoders).value;
      && Normalize(text) == text
      && forall k :: 0 <= k < |SplitLines(text)| ==>
           SplitLines(text)[k] != [] && Strip(SplitLines(text)[k]) == SplitLines(text)[k]
  {
    match Decode(DetectFormat(filename, contentType), raw, decoders)
    case Ok(text) => NormalizeIdempotent(text);
    case Err(_) =>
  }

  /** Plain text never fails: it is the normalised lossy UTF-8 decoding. */
  lemma TextNeverFails(filename: Option<string>, contentType: Option<string>,
                       raw: seq<byte>, decoders: Decoders)
    requires DetectFormat(filename, contentType) == Txt
    ensures ExtractText(filename, contentType, raw, decoders) == Ok(Normalize(decoders.utf8(raw)))
  {
  }

  /** A PDF whose extractor returns gives its text normalised, or the empty
      text when the extractor returns nothing. */
  lemma PdfSuccess(filename: Option<string>, contentType: Option<string>,
                   raw: seq<byte>, decoders: Decoders, text: Option<string>)
    requires DetectFormat(filename, contentType) == Pdf
    requires decoders.pdf(raw) == Returned(text)
    ensures ExtractText(filename, contentType, raw, decoders)
         == Ok(Normalize(if text.Some? then text.value else ""))
  {
  }

  /** A DOCX document whose reader returns gives its paragraphs joined by
      "\n", normalised. */
  lemma DocxSuccess(filename: Option<string>, contentType: Option<string>,
                    raw: seq<byte>, decoders: Decoders, paragraphs: seq<string>)
    requires DetectFormat(filename, contentType) == Docx
    requires decoders.docx(raw) == Returned(paragraphs)
    ensures ExtractText(filename, contentType, raw, decoders) == Ok(Normalize(Join(paragraphs, "\n")))
  {
  }

  /** A DOCX document whose paragraphs hold no line boundaries yields its
      non-blank paragraphs, stripped, one per line, in order. */
  lemma DocxParagraphsBecomeLines(filename: Option<string>, contentType: Option<string>,
                                  raw: seq<byte>, decoders: Decoders, paragraphs: seq<string>)
    requires DetectFormat(filename, contentType) == Docx
    requires decoders.docx(raw) == Returned(paragraphs)
    requires forall k :: 0 <= k < |paragraphs| ==> NoLineBreak(paragraphs[k])
    ensures ExtractText(filename, contentType, raw, decoders).Ok?
    ensures SplitLines(ExtractText(filename, contentType, raw, decoders).value) == StripNonBlank(paragraphs)
  {
    SplitLinesOfJoin(paragraphs);
  }

  /** An empty plain-text upload extracts to the empty text. */
  lemma EmptyTextUpload(filename: Option<string>, contentType: Option<string>, decoders: Decoders)
    requires DetectFormat(filename, contentType) == Txt
    requires decoders.utf8([]) == ""
    ensures ExtractText(filename, contentType, [], decoders) == Ok("")
  {
    assert NormalizedLines("") == [];
  }
}
