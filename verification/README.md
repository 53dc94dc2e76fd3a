# ddupload: the pure core of the upload script

The repository is a single Streamlit script (`app.py`). A user uploads a document. The
script extracts its text with a format-specific library, stores the raw file in
Supabase object storage under a key made of a timestamp and a sanitized file name, shows
a public link to it, and inserts `{filename, filetype, content}` into a database table.

This project models the script's deterministic logic in Dafny. The foreign calls are
replaced by inputs:

- **`FileNames`** (`filenames.dfy`) models `sanitize_filename`. The NFKD table is a
  parameter `d : char -> string` that maps each character to its compatibility
  decomposition. The fold to ASCII is concrete: decompose each character, then drop
  every non-ASCII character. This matches NFKD followed by `encode('ascii', 'ignore')`,
  because NFKD's canonical reordering only moves combining marks, and those all lie
  outside ASCII. The only assumption about the table is `FixesAscii`: every ASCII
  character decomposes to itself. It is used only where a property needs it.
- **`Extract`** (`extract.dfy`) models the media-type dispatch and its `except`, and the
  text assembly of the PDF, presentation and image extractors. A `Readings` value holds
  what each library makes of the uploaded bytes: the PDF page texts, the spreadsheet
  and CSV frames, the slides and their shapes, and the OCR text. For each library it
  holds either the returned value or the message of the raised exception. The frame
  renderer `DataFrame.to_string(index=False)` is a parameter.
- **`Percent`** (`percent.dfy`) models `urllib.parse.quote` with its default `safe='/'`.
  This is percent-encoding as in section 2.1 of RFC 3986. The unreserved characters of
  section 2.3 are kept. Every other character is encoded as UTF-8 (RFC 3629), and each
  byte is written `%XX` in upper-case hexadecimal. `unquote_to_bytes` is modelled as its
  inverse.
- **`Storage`** (`storage.dfy`) models the `%Y%m%d_%H%M%S` timestamp, the storage key
  `timestamp + "_" + safe_filename`, and the public link. The timestamp is an input
  instead of `datetime.now()`. The URL returned by `get_public_url` is also an input.
- **`Strings`** and **`Wrappers`** hold the sequence helpers (`Keep`, `ReplaceChar`,
  `Join`, `Split`, `Terminated`) and the `Option` / `Outcome` datatypes.

Each operation has a partner that a lemma relates it to:

- the sanitizer is paired with a per-character reference reading (`Cleaned`);
- `join` is paired with `split`;
- the presentation text is paired with the list of shape texts;
- `quote` is paired with `unquote_to_bytes`;
- the timestamp and the key are paired with their parsers;
- `rsplit("/", 1)[0]` is paired with the "before the last `/`" characterisation.

Two points about the code are worth stating plainly:

- Only the image and presentation extractors catch their own failures (app.py:45-46,
  57-58). A PDF, spreadsheet or CSV reader failure reaches the handler around the
  dispatch, and the stored text is `"Text extraction failed: " + message` (app.py:98-99).
- An N-page PDF gives N newline-separated segments only when no page text contains a
  newline itself. `PdfPagesRecovered` states the property under that condition.
  `PdfSeparators` counts the separators exactly in every case.

## Model

| member | source | states |
|---|---|---|
| FileNames.AsciiFold | app.py:23 | the NFKD fold with non-ASCII dropped yields only characters below 128, and is the identity on ASCII input when the table fixes ASCII |
| FileNames.Sanitize | app.py:22-26 | every character of the sanitized name is in `[A-Za-z0-9_.-]`, so it has no space |
| FileNames.SanitizeIsCleanedFold | app.py:23-25 | for every table, sanitizing is folding to ASCII and then, per character: a space becomes `_`, an allowed character stays, any other character goes |
| FileNames.SanitizeAscii | app.py:24-25 | on ASCII names the result is exactly that per-character reading: nothing is reordered or inserted |
| FileNames.SanitizeAppend | app.py:22-26 | sanitizing `a + b` gives the sanitized `a` followed by the sanitized `b` |
| FileNames.SanitizeFixesClean | app.py:24-25 | a name made only of allowed characters is returned unchanged |
| FileNames.SanitizeIdempotent | app.py:22-26 | sanitizing an already sanitized name changes nothing |
| FileNames.AccentFoldsToBase | app.py:23 | a letter that decomposes to an ASCII base plus non-ASCII combining marks (`é`) sanitizes as its base |
| Extract.Classify | app.py:86-97 | the branch is chosen by exact equality against the six listed media types, both image types select the image branch, and every other string is unsupported |
| Extract.ExtractText | app.py:85-99 | an unlisted media type yields exactly "Unsupported file type for text extraction."; a failure of the selected library yields its label (`Text extraction failed: `, `PPT text extraction failed: ` or `Image text extraction failed: `) followed by the message |
| Extract.OnlySelectedReaderMatters | app.py:85-99 | the stored text depends only on what the library of the selected branch made of the bytes |
| Extract.ImageTypesShareBranch | app.py:94-95 | `image/jpeg` and `image/png` produce the same text, the image extractor's |
| Extract.TablesRenderAlike | app.py:32-38 | a spreadsheet and a CSV file that parse to the same frame are stored as the same text |
| Extract.FailureLooksLikeText | app.py:40-46 | some OCR failure is stored as the very text that some successful OCR result is stored as, so the stored text cannot tell failure from success |
| Extract.ImageResult | app.py:40-46 | an image that cannot be opened or read is reported as "Image text extraction failed: " followed by the message |
| Extract.PptResult | app.py:48-58 | a readable presentation yields each shape text followed by a newline, slide by slide and shape by shape; one that cannot be read is reported as "PPT text extraction failed: " followed by the message |
| Extract.SuccessBranches | app.py:88-95 | a readable presentation is stored as its newline-terminated shape texts, a parsed spreadsheet or CSV frame as its rendering, and a successful OCR result as the OCR text |
| Extract.PdfText | app.py:30 | N >= 1 pages add exactly N - 1 newlines to those inside the pages; its other properties are stated by PdfFewPages and PdfPagesRecovered |
| Extract.PptText | app.py:51-56 | the text the two loops build; PptTextTerminated states it is every shape text followed by a newline, slide then shape |
| Extract.PdfBranch | app.py:86-87 | a PDF that opens is stored as its page texts joined by newlines |
| Extract.PdfFewPages | app.py:30 | no pages give the empty text; one page gives its text unchanged |
| Extract.PdfSeparators | app.py:30 | N >= 1 pages add exactly N - 1 newlines to those inside the pages |
| Extract.PdfPagesRecovered | app.py:30 | when no page contains a newline, splitting the text at newlines gives back the pages in page order |
| Extract.CollectPptText | app.py:51-56 | the slide loop builds the text of all slides, in slide order |
| Extract.AppendSlideText | app.py:53-55 | the shape loop appends each text-bearing shape's text and a newline, in shape order |
| Extract.PptTextTerminated | app.py:51-56 | the presentation text is each shape text followed by a newline, slide by slide and shape by shape, and shapes without text add nothing |
| Extract.PptWithoutText | app.py:51-56 | a presentation with no text-bearing shape gives the empty text |
| Extract.PptLinesRecovered | app.py:51-56 | when no shape text contains a newline, splitting at newlines gives back the shape texts in order, then one empty piece |
| Extract.TwoSlideExample | app.py:51-56 | two slides with text shapes "Hi" and "Bye" give "Hi\nBye\n" |
| Percent.Quote | app.py:109 | the quoted string is no shorter than the input, and contains only unreserved characters, `/` and `%` |
| Percent.QuoteIdentity | app.py:109 | `quote` leaves a string unchanged if and only if every character is unreserved or `/` |
| Percent.UnquoteQuote | app.py:109 | percent-decoding the quoted string gives the UTF-8 bytes of the original |
| Percent.Utf8RoundTrip | app.py:109 | the UTF-8 bytes `quote` escapes decode back to the character |
| Storage.FormatTimestamp | app.py:79 | `%Y%m%d_%H%M%S` is 15 characters: eight digits, `_`, six digits |
| Storage.DigitsRoundTrip | app.py:79 | a zero-padded field reads back as its value whenever the value fits the width |
| Storage.TimestampRoundTrip | app.py:79 | every valid date and time is printed in a form that parses back to itself |
| Storage.StorageKey | app.py:80 | the key is 16 characters longer than the sanitized name and ends with it |
| Storage.KeyRoundTrip | app.py:80 | the time and the sanitized name can be read back from the key |
| Storage.KeyInjective | app.py:80 | two uploads share a key only if they fall in the same second and their names sanitize alike |
| Storage.KeyIsUnreserved | app.py:78-80 | a key built from a sanitized name holds only RFC 3986 unreserved characters |
| Storage.KeyQuotesToItself | app.py:109 | quoting such a key changes nothing, and the key has no `/` |
| Storage.UrlBase | app.py:109 | `rsplit("/", 1)[0]` is all of the URL when it has no `/`, otherwise the prefix before its last `/` |
| Storage.UrlBaseOfJoin | app.py:109 | cutting `p + "/" + tail` with `tail` free of `/` gives back `p` |
| Storage.PlainKeyLink | app.py:109 | for a key that quoting leaves alone and that has no `/`, the link is the cut URL, `/` and the key, and the key is its last segment |
| Storage.CleanKeyLink | app.py:109 | the same holds for every key built from allowed characters |
| Storage.PublicUrl | app.py:109 | the link built from the store's URL and the quoted key; PlainKeyLink, CleanKeyLink and UploadLink state that for an upload's key it is the URL before its last `/`, then `/` and the key |
| Storage.UploadLink | app.py:78-109 | for every original name, the link is the store's URL cut before its last `/`, then `/` and the unquoted key, and the key is the link's last segment |

## Left out

- The Streamlit interface (app.py:71-73, 110-129) is left out: it renders widgets and has no logic.
- The Supabase client, the storage upload and the database insert (app.py:67, 101-125) are left out. They are network calls to an external service. The URL returned by `get_public_url` is an input instead.
- `load_dotenv` and `os.getenv` (app.py:61-65) are left out. They read the environment.
- `datetime.now()` (app.py:79) is left out because it reads the clock. The time is an input.
- The Tesseract executable path (app.py:19) is left out. It only sets up the environment.
- The internals of PyMuPDF, pandas `read_excel`/`read_csv`/`to_string`, PIL, pytesseract and python-pptx (app.py:29, 33-34, 37-38, 42-43, 50) are left out. Their behaviour cannot be seen. Their results or raised messages are inputs (`Readings`), and the frame renderer is a parameter.
- The Unicode NFKD decomposition table (app.py:23) is left out. It is the parameter `d`, assumed only to fix ASCII characters where a property needs that.
- FileNames.AsciiFold: decomposes each character on its own. A lone surrogate in a Python string cannot occur in a Dafny `char`.
- Percent.Quote: lone surrogates, which make Python's UTF-8 encoding raise, cannot occur in a Dafny `char`.
- Storage.FormatTimestamp: pads the year to four digits, as Python documents for `%Y`. Some C libraries print years below 1000 without padding; `datetime.now()` never yields such a year.
