/** Format detection from an upload's file name and declared content type. */
module Formats {
  import opened Wrappers
  import opened Text

  datatype Format = Pdf | Docx | Txt | Unknown

  function OrEmpty(s: Option<string>): string {
    match s
    case Some(v) => v
    case None => ""
  }

  /** The tag named by a lower-cased file name's suffix, if any. */
  function SuffixFormat(name: string): Option<Format> {
    if EndsWith(name, ".pdf") then Some(Pdf)
    else if EndsWith(name, ".docx") then Some(Docx)
    else if EndsWith(name, ".txt") then Some(Txt)
    else None
  }

  /** The tag named by a lower-cased content type. */
  function MimeFormat(mime: string): Format {
    if Contains(mime, "pdf") then Pdf
    else if Contains(mime, "word") || Contains(mime, "docx") then Docx
    else if Contains(mime, "text") then Txt
    else Unknown
  }

  /** An absent file name or content type counts as the empty string. The
      file name's suffix is tried first; the content type only when no suffix
      is recognised. Never fails. */
  function DetectFormat(filename: Option<string>, contentType: Option<string>): Format {
    var name := Lower(OrEmpty(filename));
    match SuffixFormat(name)
    case Some(f) => f
    case None => MimeFormat(Lower(OrEmpty(contentType)))
  }

  /** A recognised suffix decides the tag whatever the content type says. */
  lemma SuffixOutranksContentType(filename: Option<string>, ct1: Option<string>, ct2: Option<string>)
    requires SuffixFormat(Lower(OrEmpty(filename))).Some?
    ensures DetectFormat(filename, ct1) == DetectFormat(filename, ct2)
    ensures DetectFormat(filename, ct1) != Unknown
  {
  }

  /** Without a recognised suffix only the content type counts: the file name
      might as well be absent. */
  lemma ContentTypeOnlyWithoutSuffix(filename: Option<string>, contentType: Option<string>)
    requires SuffixFormat(Lower(OrEmpty(filename))).None?
    ensures DetectFormat(filename, contentType) == DetectFormat(None, contentType)
  {
    assert Lower("") == "";
    assert !EndsWith("", ".pdf") && !EndsWith("", ".docx") && !EndsWith("", ".txt");
  }

  /** "unknown" exactly when neither the suffix nor any of the content-type
      keywords is found. */
  lemma UnknownExactly(filename: Option<string>, contentType: Option<string>)
    ensures var name := Lower(OrEmpty(filename));
      var mime := Lower(OrEmpty(contentType));
      DetectFormat(filename, contentType) == Unknown <==>
        !EndsWith(name, ".pdf") && !EndsWith(name, ".docx") && !EndsWith(name, ".txt")
        && !Contains(mime, "pdf") && !Contains(mime, "word") && !Contains(mime, "docx")
        && !Contains(mime, "text")
  {
  }

  /** The content type's keywords are tried in order: "pdf" beats "word" and
      "docx", which beat "text". */
  lemma ContentTypeKeywordOrder(contentType: string)
    ensures Contains(Lower(contentType), "pdf") ==> DetectFormat(None, Some(contentType)) == Pdf
    ensures !Contains(Lower(contentType), "pdf")
      && (Contains(Lower(contentType), "word") || Contains(Lower(contentType), "docx"))
      ==> DetectFormat(None, Some(contentType)) == Docx
    ensures !Contains(Lower(contentType), "pdf") && !Contains(Lower(contentType), "word")
      && !Contains(Lower(contentType), "docx") && Contains(Lower(contentType), "text")
      ==> DetectFormat(None, Some(contentType)) == Txt
  {
    assert Lower("") == "";
    assert !EndsWith("", ".pdf") && !EndsWith("", ".docx") && !EndsWith("", ".txt");
  }

  /** Detection ignores case: lower-casing either input first changes nothing. */
  lemma CaseInsensitive(filename: string, contentType: string)
    ensures DetectFormat(Some(Lower(filename)), Some(Lower(contentType)))
         == DetectFormat(Some(filename), Some(contentType))
  {
    LowerIdempotent(filename);
    LowerIdempotent(contentType);
  }

  /** A name whose last characters are ".pdf" in any mix of case is a PDF
      document whatever its content type; likewise ".docx" and ".txt". */
  lemma AnyCasePdfSuffix(stem: string, suffix: string, contentType: Option<string>)
    requires Lower(suffix) == ".pdf"
    ensures DetectFormat(Some(stem + suffix), contentType) == Pdf
  {
    LowerAppend(stem, suffix);
    var name := Lower(stem) + ".pdf";
    assert name[|name| - 4..] == ".pdf";
  }

  lemma AnyCaseDocxSuffix(stem: string, suffix: string, contentType: Option<string>)
    requires Lower(suffix) == ".docx"
    ensures DetectFormat(Some(stem + suffix), contentType) == Docx
  {
    LowerAppend(stem, suffix);
    var name := Lower(stem) + ".docx";
    assert name[|name| - 5..] == ".docx";
    assert name[|name| - 4] == 'd';
  }

  lemma AnyCaseTxtSuffix(stem: string, suffix: string, contentType: Option<string>)
    requires Lower(suffix) == ".txt"
    ensures DetectFormat(Some(stem + suffix), contentType) == Txt
  {
    LowerAppend(stem, suffix);
    var name := Lower(stem) + ".txt";
    assert name[|name| - 4..] == ".txt";
    assert name[|name| - 3] == 't';
    assert name[|name| - 4] == '.';
  }
}
