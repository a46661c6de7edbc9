# MPN validation against datasheet PDFs — a Dafny model

The application checks manufacturer part numbers (MPNs) against the text of
datasheet PDFs. It first builds a corpus: the PDF URLs are fetched in
batches of 100, each payload is parsed, and its page texts are joined by
newlines. A URL whose fetch or parse fails gets no entry. Then every row of
the sheet whose part cell is a string gets a verdict for its part number:

- `Exact` when some document with more than 100 characters of text contains
  the part as a literal, case-insensitive substring;
- otherwise `Includes or Missed Suffixes` when some corpus key (a URL, not a
  text) is similar enough to the part (difflib ratio at least 0.65). The
  best such key becomes the EQUIVALENT;
- otherwise `Not Found`.

Documents of at most 100 characters count as scanned. They mark the row
`OCR` and are skipped; for a string part that mark is always overwritten. Before export,
result cells are cleaned of control characters.

The model has four modules:

- `Wrappers` holds `Option`.
- `Sanitize` models `clean_string` as a recursive filter over `seq<char>`,
  plus the cell-level wrapper that leaves non-strings alone.
- `Corpus` models `GetPDFText`.
  - The Python dictionary is a `Dict`: its key insertion order plus a `map`.
    `Store` is `d[k] = v`.
  - The batch list is the comprehension `Chunks`.
  - `Fill` is a flat, one-URL-at-a-time specification of the result. The
    batched method `GetPDFText` (with `StoreBatch`, the inner loop over one
    batch's results) is proved equal to it.
  - The network fetch and the PDF parser are function parameters: `fetch`
    returns the payload or `None`, and `parse` returns the page texts or
    `None`.
- `Matcher` models `PN_Validation_New`.
  - `Search` models `re.search(re.escape(part), text, IGNORECASE)` as a
    leftmost case-insensitive scan.
  - `CloseMatch` models `get_close_matches(..., n=1, cutoff=0.65)` over a
    ratio parameter.
  - `Decide` states a row's final verdict declaratively, without any scan.
  - The data frame is the class `Sheet`. `SetDesc` is the per-row state
    machine: the `found` flag, the `OCR` overwrite, `break`, then the fuzzy
    fallback. It is proved to write `Decide`'s status into the row's STATUS
    cell and touch no other row. On an Exact or fuzzy verdict it also writes
    `Decide`'s EQUIVALENT. On Not Found it writes STATUS only and leaves
    EQUIVALENT as it was.
  - `Validate` creates the three verdict columns filled with None and then
    runs `SetDesc` on every row. It is proved to leave every row holding
    exactly `Decide`'s verdict, so a Not Found row's EQUIVALENT is None.

Some things the code does not do. A part is never checked against only its
own row's PDF: the `pdf_col` argument is unused, so every part is searched
in the whole corpus. No verdict reports a missing or unreadable document,
and for a string part `OCR` never survives. SIMILARS is never computed. The fuzzy fallback
compares the part with the URLs, not with words of the text.

## Model

| member | source | states |
|---|---|---|
| Sanitize.Clean | PDF_MPN_VALIDATION_ONLY.py:11-15 | the cleaned string has no character in U+0000–U+001F or U+007F, is no longer than the input, and holds only characters of the input |
| Sanitize.CleanCell | PDF_MPN_VALIDATION_ONLY.py:13-15 | a non-string value is returned unchanged; a string becomes the string with its control characters deleted (Clean of it), so it is free of them and no longer |
| Sanitize.CleanAppend | PDF_MPN_VALIDATION_ONLY.py:14 | cleaning a concatenation is the concatenation of the cleaned parts, so characters keep their order |
| Sanitize.CleanChar | PDF_MPN_VALIDATION_ONLY.py:14 | a single control character is deleted and any other character kept; with CleanAppend this determines the filter |
| Sanitize.CleanCounts | PDF_MPN_VALIDATION_ONLY.py:14 | every non-control character occurs in the output exactly as often as in the input; control characters do not occur |
| Sanitize.CleanIdentity | PDF_MPN_VALIDATION_ONLY.py:13-14 | a string without control characters is returned unchanged |
| Sanitize.CleanIdempotent | PDF_MPN_VALIDATION_ONLY.py:14 | cleaning twice equals cleaning once |
| Sanitize.CleanShortens | PDF_MPN_VALIDATION_ONLY.py:14 | the output is as long as the input if and only if the input has no control character |
| Corpus.Store | PDF_MPN_VALIDATION_ONLY.py:40 | dictionary assignment keeps keys distinct and equal to the stored domain; a new key is appended, an existing one keeps its place |
| Corpus.JoinLength | PDF_MPN_VALIDATION_ONLY.py:40 | the newline-joined document text is as long as all page texts plus one separator per page boundary |
| Corpus.Fill | PDF_MPN_VALIDATION_ONLY.py:29-42 | handling the URLs in order yields a well-formed dictionary (distinct keys, key list equal to the domain) |
| Corpus.FillContents | PDF_MPN_VALIDATION_ONLY.py:36-42 | a URL is a key iff it is an input and both its fetch and its parse succeed; its value is then the joined page text; a failure leaves no entry |
| Corpus.FillKeysAreInputs | PDF_MPN_VALIDATION_ONLY.py:36-42 | every key of the result is one of the input URLs |
| Corpus.FillKeyOrder | PDF_MPN_VALIDATION_ONLY.py:29-42 | keys are iterated in the order of their URLs' first occurrence in the input |
| Corpus.FillSnoc | PDF_MPN_VALIDATION_ONLY.py:36-42 | one more URL either leaves the dictionary unchanged (fetch or parse failed) or stores its text |
| Corpus.Chunks | PDF_MPN_VALIDATION_ONLY.py:30 | there are ceil(n/100) batches, each non-empty and at most 100 long, all but the last exactly 100 |
| Corpus.ChunksPrefix | PDF_MPN_VALIDATION_ONLY.py:30 | the first k batches concatenate to the first min(100k, n) URLs |
| Corpus.ChunksFlatten | PDF_MPN_VALIDATION_ONLY.py:30 | the batches concatenate back to the URL list |
| Corpus.StoreBatch | PDF_MPN_VALIDATION_ONLY.py:36-42 | looping over one batch's fetch results extends the dictionary exactly as handling that batch's URLs one by one |
| Corpus.GetPDFText | PDF_MPN_VALIDATION_ONLY.py:27-44 | the batched fetch-and-parse loop returns exactly the dictionary Fill specifies for the whole URL list |
| Matcher.SearchFrom | PDF_MPN_VALIDATION_ONLY.py:61 | the result is the leftmost position at or after the start where the part occurs ignoring case, or None when it occurs nowhere there |
| Matcher.Search | PDF_MPN_VALIDATION_ONLY.py:61 | the search succeeds iff the text contains the part ignoring case, at the returned position |
| Matcher.EmptyPartAlwaysFound | PDF_MPN_VALIDATION_ONLY.py:61 | an empty part matches every text at position 0 |
| Matcher.CloseMatch | PDF_MPN_VALIDATION_ONLY.py:68 | None iff no key reaches the 0.65 cutoff; otherwise a key that reaches it with the highest ratio of all keys |
| Matcher.ExactIff | PDF_MPN_VALIDATION_ONLY.py:56-65 | a row is Exact iff some corpus document longer than 100 characters contains the part ignoring case; EQUIVALENT is then the part |
| Matcher.NeverOcr | PDF_MPN_VALIDATION_ONLY.py:56-73 | the final status is Exact, fuzzy or Not Found, never OCR |
| Matcher.FuzzyVerdict | PDF_MPN_VALIDATION_ONLY.py:67-71 | the fuzzy status only follows a failed exact search; EQUIVALENT is then a corpus key reaching the cutoff with maximal ratio |
| Matcher.NotFoundVerdict | PDF_MPN_VALIDATION_ONLY.py:67-73 | Not Found iff there is no exact hit and no key reaches the cutoff; EQUIVALENT is then None |
| Matcher.ShortDocumentsIgnored | PDF_MPN_VALIDATION_ONLY.py:56-59 | texts of at most 100 characters never influence the verdict, whatever they contain |
| Matcher.Sheet.SetDesc | PDF_MPN_VALIDATION_ONLY.py:52-73 | the in-order scan with OCR marks, break on the first hit and fuzzy fallback writes the declarative status into this row's STATUS cell; on Exact or fuzzy it also writes the declarative EQUIVALENT, on Not Found it leaves EQUIVALENT as it was; no other row changes |
| Matcher.Sheet.Validate | PDF_MPN_VALIDATION_ONLY.py:46-78 | after the run each row holds the verdict of its own part, the row count is unchanged, and SIMILARS is None everywhere |

## Left out

- `main` (the Streamlit page, Excel reading and writing, colouring, the download button) is presentation and file I/O. So is the application of `clean_string` to the result columns there.
- `GetPDFResponse` (HTTP with a 10-second timeout) and the PDF parser are not modelled. They appear as the `fetch` and `parse` parameters, and the error logging is left out.
- Corpus.Fill: `fetch` and `parse` are functions, so a URL listed twice is assumed to give the same outcome both times. The real network may differ between the two fetches.
- The thread pools are modelled as sequential loops: per-URL fetching in a batch, and per-row `SET_DESC`. Each row writes only its own cells, so the order does not matter. Exceptions that `executor.map` would silently swallow are not modelled.
- Matcher.CloseMatch: difflib's SequenceMatcher ratio is the parameter `ratio` (floating point, not modelled). Among keys with the same best ratio, the model takes the first in key order, while difflib takes the lexicographically largest key.
- Matcher.Search: case-insensitivity is ASCII lower-casing only; Unicode case folding is not modelled.
- Part cells that are not strings are not modelled. pandas reads a numeric part as a number and a blank cell as NaN. For such a part `SET_DESC` raises a TypeError: at `re.escape` on the first readable document, or inside `get_close_matches` when no document is readable. The exception is silently dropped because the `executor.map` result is never consumed. The row then keeps STATUS `'OCR'` if a short document came before the first readable one (or there was no readable one but some short one), and None otherwise; EQUIVALENT stays None.
- The sheet's row index is taken to be 0..n-1. Columns other than the part column and the three verdict columns are not modelled.
- Matcher.Sheet.SetDesc: the model assumes a chained assignment such as `data['STATUS'][index] = ...` updates the sheet itself. That holds for pandas without copy-on-write. With copy-on-write (opt-in in pandas 2, the default from pandas 3) such an assignment updates only a temporary column, and every STATUS and EQUIVALENT cell stays None. The same assumption holds for Matcher.Sheet.Validate.
- Sanitize.CleanCell: a non-string cell is represented only as None or an integer. Floats and other types are not modelled.
