# Document text pipeline, modelled in Dafny

A model of the text-processing core of a small document service
(`app.py`). The service receives an uploaded PDF, DOCX or plain-text
document, extracts and normalises its text, and answers with word-count
statistics or an extractive summary. The model covers four parts:

- **Format detection** (`_ext_from_name_or_mime`), in module `Formats`. The
  lower-cased file name's suffix (`.pdf`, `.docx`, `.txt`) decides first.
  Otherwise the lower-cased content type is searched for `pdf`, then `word`
  or `docx`, then `text`. The fallback is `Unknown`.
- **Extraction** (`extract_text_from_upload`), in module `Extraction`. It
  dispatches to one of three decoders, which are given as function
  parameters. It maps an unknown format to the 400 "unsupported" error and a
  decoder exception to the 422 "failed to parse" error. It normalises the
  text: split into lines, strip each, drop the blank ones, join with `"\n"`.
- **Statistics** (`word_count_stats`), in module `Stats`: characters,
  whitespace-separated words, non-blank lines.
- **Summariser** (`simple_frequency_summary`), in modules `Summary` and
  `Ranking`. The steps are:
  - split into sentences at whitespace that follows `.`, `!` or `?`;
  - tokenise the lower-cased text into `[A-Za-z']+` runs;
  - count the tokens that are not stopwords and are longer than two
    characters;
  - score each sentence;
  - sort the scores in descending order, keep the first N, and re-sort
    those by position.

  The loops that fill the frequency map and the score list are methods with
  loop invariants. The descending sort is an in-place insertion sort over an
  array.

Module `Text` models the Python string primitives the pipeline is built from:

- `str.isspace` and the regular-expression class `\s`;
- `str.lower`, `str.strip`, `str.splitlines`;
- `str.split()` and `re.findall` over a character class, as maximal runs;
- `str.join`, `str.endswith`, and `in` on strings.

Each is written out from Python's definitions. Examples: the exact set of
whitespace code points; `"\r\n"` as one line boundary; no trailing empty
line.

The score itself is floating-point arithmetic (a division and `math.exp`).
It is kept abstract as a `Scorer`: any real-valued function of the three
integers it is computed from, namely the sentence's frequency sum, its
token count and its index. Those integers are modelled exactly, and the
selection is proved correct for every scorer.

On equal scores the code's descending sort on `(score, idx, s)` puts the
sentence with the larger index first, so the later sentence wins
(`Ranking.LaterWinsTies`).

## Model

| member | source | states |
|---|---|---|
| `Formats.DetectFormat` | app.py:60-75 | Computes the format tag from the lower-cased file name suffix, falling back to content-type keywords, then to `Unknown`; its meaning is stated by `UnknownExactly`, `SuffixOutranksContentType`, `ContentTypeOnlyWithoutSuffix`, `ContentTypeKeywordOrder` and `CaseInsensitive`. |
| `Formats.SuffixOutranksContentType` | app.py:60-67 | A recognised `.pdf`/`.docx`/`.txt` suffix decides the format whatever the content type, and the result is never `Unknown`. |
| `Formats.ContentTypeOnlyWithoutSuffix` | app.py:61-68 | Without a recognised suffix the file name has no influence: the result equals the result with no file name. |
| `Formats.UnknownExactly` | app.py:60-75 | `Unknown` exactly when none of the three suffixes and none of the four content-type keywords is present. |
| `Formats.ContentTypeKeywordOrder` | app.py:68-75 | The content-type keywords are tried in order: `pdf` gives PDF, else `word` or `docx` gives DOCX, else `text` gives TXT, case-insensitively. |
| `Formats.CaseInsensitive` | app.py:61-68 | Lower-casing the file name or content type first changes nothing. |
| `Formats.AnyCasePdfSuffix` | app.py:61-63 | Any name ending in `.pdf` in any mix of case is a PDF, whatever its content type. |
| `Formats.AnyCaseDocxSuffix` | app.py:61-65 | Any name ending in `.docx` in any mix of case is a DOCX document, whatever its content type. |
| `Formats.AnyCaseTxtSuffix` | app.py:61-67 | Any name ending in `.txt` in any mix of case is plain text, whatever its content type. |
| `Extraction.Decode` | app.py:81-97 | Runs the decoder for the detected format: PDF text or `""` when the extractor returns nothing, DOCX paragraphs joined by `"\n"`, lossy UTF-8 for plain text; a decoder exception becomes the 422 error, an unknown format the 400 error. Stated by `PdfSuccess`, `DocxSuccess`, `TextNeverFails`, `UnsupportedExactlyWhenUnknown` and `ParseFailedOnlyFromDecoder`. |
| `Extraction.ExtractText` | app.py:77-98 | Detection, decoding and normalisation composed; every success is normalised text (`SuccessIsNormalized`) and the two errors arise exactly as `UnsupportedExactlyWhenUnknown` and `ParseFailedOnlyFromDecoder` state. |
| `Extraction.Normalize` | app.py:98 | The lines of the normalised text are exactly the stripped non-blank lines of the input; each equals its own strip and none is empty. |
| `Extraction.NormalizeIdempotent` | app.py:98 | Normalising normalised text returns it unchanged. |
| `Extraction.NormalizeKeepsOrder` | app.py:98 | The output lines are the strips of the input's non-blank lines, in their source order, and every non-blank input line is kept. |
| `Extraction.UnsupportedExactlyWhenUnknown` | app.py:78-94 | An error with status 400 and the "Unsupported file type" detail happens exactly when the detected format is `Unknown`. |
| `Extraction.ParseFailedOnlyFromDecoder` | app.py:81-97 | An error with status 422 and detail "Failed to parse document: " followed by m happens exactly when the detected format is PDF or DOCX and that decoder raised m; it never comes from the unsupported-type path. |
| `Extraction.SuccessIsNormalized` | app.py:77-98 | Every successful extraction is already normalised: stripped, non-empty lines, and a fixed point of normalisation. |
| `Extraction.PdfSuccess` | app.py:82-84 | A PDF whose extractor returns gives that text normalised, or the empty text when the extractor returns nothing. |
| `Extraction.DocxSuccess` | app.py:85-88 | A DOCX document whose reader returns gives its paragraphs joined by `"\n"`, normalised. |
| `Extraction.TextNeverFails` | app.py:89-90 | A plain-text upload never fails; its text is the normalised lossy UTF-8 decoding. |
| `Extraction.DocxParagraphsBecomeLines` | app.py:86-98 | A DOCX document whose paragraphs hold no line boundary yields its non-blank paragraphs, stripped, one per line, in order. |
| `Extraction.EmptyTextUpload` | app.py:89-98 | An empty plain-text upload extracts to the empty text. |
| `Text.IsSpace` | app.py:101 | The whitespace code points of Python's `str.isspace`, which `split()`, `strip()` and the pattern class `\s` share; the lemmas about `Strip`, `Runs` and `SkipSpace` state what each does with it. |
| `Text.Lower` | app.py:61 | `str.lower`: no ASCII capital is left in the result (its ensures); `LowerAppend` and `LowerIdempotent` state that it works character by character and that lower-casing twice is lower-casing once. |
| `Text.Strip` | app.py:98 | `str.strip` with no argument; `StripSpec` states its result. |
| `Text.SplitLines` | app.py:98 | `str.splitlines`: cuts at each line boundary, `"\r\n"` counting as one, with no trailing empty line; `SplitLinesOfJoin` and `Normalize` state the round trip through `Join`. |
| `Text.Runs` | app.py:111 | The maximal runs of a character class, left to right: each is non-empty and inside the class (its ensures); `RunsRoundTrip` fixes each run by position, and `RunsAreMaximal`, `RunsCoverClass` and `RunsCountStarts` state that they are maximal slices, cover the class in order and are one per run start. |
| `Text.RunsRoundTrip` | app.py:111 | The runs put back between the stretches outside the class give the text again; every stretch is free of class characters and every stretch between two runs is non-empty, so the k-th run is the k-th maximal run by position. |
| `Text.RunsAreMaximal` | app.py:111 | Every run is a slice of the text bounded by characters outside the class or by the text's ends. |
| `Text.StripNonBlank` | app.py:98 | `[l.strip() for l in pieces if l.strip()]`: every kept piece is non-empty and stripped (its ensures); `KeptInOrder` states which pieces are kept and in what order. |
| `Text.Join` | app.py:98 | `str.join`: the parts with the separator between them; `SplitLinesOfJoin` and `Normalize` state its round trip with `SplitLines`. |
| `Text.EndsWith` | app.py:62-66 | `str.endswith`; `AnyCasePdfSuffix`, `AnyCaseDocxSuffix` and `AnyCaseTxtSuffix` state the suffix tests built on it. |
| `Text.Contains` | app.py:69-73 | `in` on strings, a substring test; `ContentTypeKeywordOrder` and `UnknownExactly` state the keyword tests built on it. |
| `Text.KeptInOrder` | app.py:98 | The strip-and-drop-blanks comprehension keeps the pieces in order and keeps exactly the pieces that are not all whitespace. |
| `Text.SplitLinesOfJoin` | app.py:88-98 | Splitting lines after joining break-free pieces with `"\n"` gives back the pieces, up to the blank ones that normalisation drops anyway. |
| `Text.StripSpec` | app.py:98 | `strip` returns a slice of its input with only whitespace cut off before and after it; the slice has no whitespace at either end, and it is empty exactly for all-whitespace input. |
| `Stats.Words` | app.py:101 | `str.split()` with no argument: the maximal non-whitespace runs, stated by `StatsMeaning`. |
| `Stats.WordCountStats` | app.py:100-102 | Computes the three counts; `StatsMeaning` states what each one counts. |
| `Stats.StatsMeaning` | app.py:100-102 | `characters` is the text length. `words` is the number of maximal non-whitespace runs; put back between the whitespace stretches they give the text again, each is a non-empty slice of the text between whitespace or its ends, and together they hold every visible character in order. `lines` is the number of non-blank lines. |
| `Stats.EmptyTextStats` | app.py:100-102 | Empty text gives all zeros. |
| `Stats.BlankTextStats` | app.py:100-102 | All-whitespace text has no words and no lines. |
| `Stats.NormalizedLinesCount` | app.py:98-102 | On normalised text, `lines` is the number of `"\n"`-separated pieces: one more than the number of newlines, or 0 for empty text. |
| `Summary.SentenceBreak` | app.py:106 | The first position where the sentence pattern matches (whitespace right after `.`, `!` or `?`), or the end of the text when there is none. |
| `Summary.Chunks` | app.py:106 | Splits the text at every maximal whitespace run that follows `.`, `!` or `?`, always giving at least one piece as `re.split` does; the pieces are described by `ChunksRoundTrip`, `ChunkBoundaries` and `ChunksKeepVisible`. |
| `Summary.ChunksRoundTrip` | app.py:106 | The pieces are verbatim text: put back together with the removed run of each cut between them, they give the text again, and each removed run is non-empty whitespace. |
| `Summary.ChunkBoundaries` | app.py:106 | Each piece of the split but the last ends with a terminator. No piece contains a split point. Each later piece starts after the whole whitespace run. |
| `Summary.ChunksKeepVisible` | app.py:106 | The split removes only whitespace: the pieces hold every visible character of the text, in order. |
| `Summary.Sentences` | app.py:106-107 | The split pieces, each stripped, blank ones dropped; `SentencesFromChunks`, `SentencesSpec` and `OneSentenceWithoutBreak` state the result. |
| `Summary.SentencesFromChunks` | app.py:106-107 | Each sentence is the strip of its own piece of the split, in order, and a piece gives a sentence exactly when it is not blank. |
| `Summary.SentencesSpec` | app.py:106-107 | Sentences are stripped and non-empty, and together hold exactly the visible characters of the text, in order. |
| `Summary.OneSentenceWithoutBreak` | app.py:106-107 | A text with no terminator followed by whitespace is one sentence, its strip, or none when blank. |
| `Summary.Tokens` | app.py:111 | The maximal `[A-Za-z']` runs of the lower-cased text, in order; `TokensAreMaximalRuns` and `TokensAreLowerWords` state what they are. |
| `Summary.TokensAreMaximalRuns` | app.py:111 | The tokens, put back between the stretches of other characters (non-empty between two tokens), give the lower-cased text again, so token k is the k-th maximal letter-and-apostrophe run; they also hold every such character in order, one per run start, each a slice bounded by other characters or the ends. |
| `Summary.TokensAreLowerWords` | app.py:111 | Every token is a non-empty run of lower-case ASCII letters and apostrophes. |
| `Summary.Frequencies` | app.py:112-116 | The map from each token that is not a stopword and is longer than two characters to its number of occurrences; `CountFrequencies` proves the loop builds it, `FrequencyKeys` and `FrequenciesEmpty` state its keys and values. |
| `Summary.CountFrequencies` | app.py:112-116 | The frequency loop builds the map from each counted token to its number of occurrences. |
| `Summary.FrequencyKeys` | app.py:110-116 | Every key is a lower-case token of the text, not a stopword, longer than two characters. Its value is its occurrence count, at least 1. |
| `Summary.FrequenciesEmpty` | app.py:112-118 | The map is empty exactly when no token is counted, which is when the summary falls back to the first N sentences. |
| `Summary.FreqSum` | app.py:122 | The sum of the dictionary counts of a sentence's tokens, 0 for tokens not in it; `FreqSumZero` states when it is zero. |
| `Summary.FreqSumZero` | app.py:122 | A sentence's frequency sum is zero exactly when none of its tokens is a key. |
| `Summary.ScoreSentences` | app.py:119-124 | The scoring loop yields one entry per sentence, in order, with its own index, its text, and the score of its frequency sum, token count and index. |
| `Summary.Summarize` | app.py:104-127 | At most N sentences: all of them, joined by spaces. No counted token: the first N. Otherwise: the top-N selection by score, emitted in ascending original order. |
| `Ranking.SortInPlace` | app.py:125-126 | The in-place sort leaves the array ordered by the given total preorder and a permutation of what it held. |
| `Ranking.RankAndSelect` | app.py:125-126 | The descending sort, the cut to N and the re-sort by index give a top-N selection: min(N, count) distinct entries, in ascending index, each outranking every entry left out. |
| `Ranking.TopSelectionUnique` | app.py:125-126 | There is only one top-N selection, so the summary is determined by the scores. |
| `Ranking.LaterWinsTies` | app.py:124-125 | Of two equally scored sentences, the earlier is picked only if the later is too. |
| `Ranking.HigherScoresPicked` | app.py:125-126 | A picked sentence never scores below a sentence left out. |

## Left out

- HTTP transport is not modelled: the FastAPI app, the routes, the CORS middleware, the health endpoint and the JSON responses (app.py:38-46, 129-163). `ExtractError.Status` and `ExtractError.Detail` keep only the status code and detail text of each error.
- Logging is not modelled: the logger and Logtail handler setup and the logging calls are side effects only (app.py:19-36, 96).
- `_ensure_size_ok` is not modelled. It seeks on the upload stream and compares sizes in floating-point megabytes against an environment setting (app.py:51-58).
- Reading the upload stream is not modelled: the raw bytes are a parameter.
- The three decoders are parameters of the model:
  - The PDF extractor may raise or return nothing.
  - The DOCX reader gives its paragraphs' text or raises.
  - The lossy UTF-8 decoder is total.
  Their internals are foreign library code.
- The score arithmetic is not modelled: the float division by `len(toks) + 1e-9` and the `math.exp` positional boost (app.py:122-123). `Scorer` is any real-valued function of the frequency sum, the token count and the index.
- Timing, environment variables and server start-up are not modelled (app.py:15-17, 165-167).
- Summary.Summarize: `max_sentences` is a natural number. The endpoint only passes values from 1 to 20 (app.py:144). A negative value, for which Python slices from the end, is not modelled.
- Summary.Summarize: the ghost `picked` is constrained only when scoring runs; in the other two cases the contract states the summary directly.
- Ranking.SortInPlace: it is an insertion sort, where Python's `list.sort` is Timsort. Both give the same order here, because the keys (score, index) are distinct. The sentence text, the third tuple component, never decides a comparison.
- Text.Lower: besides A-Z, only the Kelvin sign and the capital I with dot above are mapped. Every other character is kept as it is, where Python lower-cases many non-ASCII letters to other non-ASCII letters. That difference changes no suffix test, keyword test or token run.
- Python strings may hold lone surrogate code points; Dafny's `char` cannot, so such strings are not modelled.
