# open_emails: a Dafny model of the row scan, the name splitter and the mailto link

`open_emails.py` walks the "Working" sheet of a networking workbook from row 2
down and handles each row in turn:

- It stops at the first row whose column A is empty or blank.
- It skips a row that has no recipient (column C) or no email type (column B).
- For every other row, it asks a language model to draft a check-in email
  addressed to the person's first name.
- It skips the row when drafting fails.
- Otherwise it opens a mail compose window through a `mailto:` link. The link
  carries the subject "Checking in" and the drafted body, both percent-encoded.
- At the end it reports how many rows it went through.

The model has one module per piece of that logic:

| file | module | what it models |
|---|---|---|
| `wrappers.dfy` | `Wrappers` | `Option` |
| `text.dfy` | `Text` | Python's `str.isspace`, `strip()`, `split()` and `" ".join` |
| `names.dfy` | `Names` | `split_name` |
| `utf8.dfy` | `Utf8` | `str.encode("utf-8")`, which `urllib.parse.quote` applies first, and its inverse |
| `percent.dfy` | `Percent` | `urllib.parse.quote` with its default safe character `/` (section 2.1 and section 2.3 of RFC 3986), and a strict decoder |
| `mailto.dfy` | `Mailto` | the link built in `open_outlook_email`, in the style of section 2 of RFC 6068, and a reader that splits it back |
| `workbook.dfy` | `Workbook` | the loop of `process_excel_workbook` |

The loop of `process_excel_workbook` is the method `Workbook.ProcessWorkbook`:

- It has a `while` loop over `rowNum`.
- It is proved against the specification function `Workbook.Scan`, the list of
  steps one per row up to the first sentinel.
- The count it reports is the source's `row_num - 2`.
- The language-model call and the launch of the mail client are oracles passed
  in as functions. They are indexed by row number, so each call may answer
  differently.

The lemmas about `Scan` state:

- the order of the rows and where the scan stops;
- that rows below the sentinel are never read;
- the skip rules;
- what is asked of the drafter and of the mail client.

Three facts about the loop that its lemmas make precise:

- **The final count.** `row_num` starts at 2 and grows by one per row before
  the sentinel, so `row_num - 2` is exactly the number of rows before the
  sentinel, skipped and failed rows included (`Workbook.ProcessWorkbook`,
  `processed == |steps|`, and `Workbook.ScanStopsAtFirstSentinel`).
- **Columns B, C and D.** All three are read as `str(value or "").strip()`: a
  missing cell, an empty string, zero and `False` all read as `""`, and a row
  whose type or recipient reads as `""` is skipped (`Workbook.ColumnText`,
  `Workbook.ScanSkipsIncompleteRows`).
- **The first name.** A row that reaches `split_name` has a non-blank column
  A, so its first name is never empty (`Workbook.FirstNameOfVisitedRow`).

## Model

| member | source | states |
|---|---|---|
| Text.Trim | open_emails.py:10 | `strip()` leaves no whitespace at either end and never lengthens the string |
| Text.TrimInfix | open_emails.py:10 | `strip()` returns a contiguous slice of its input with only whitespace before and after it |
| Text.TrimEmptyIff | open_emails.py:94 | `str(...).strip() == ""` holds exactly when the text is all whitespace |
| Text.BlankIff | open_emails.py:94 | the character-by-character blank test agrees with "all whitespace" |
| Text.Words | open_emails.py:10 | every token `split()` yields is non-empty and free of whitespace |
| Text.WordsAfterWord | open_emails.py:10 | a word followed by a whitespace run of any non-zero length is one token, and the scan goes on after the run |
| Text.WordsOfInterleave | open_emails.py:10 | valid words separated by any non-empty whitespace runs, with any runs at the ends, split back into exactly those words |
| Text.InterleaveGapsOf | open_emails.py:10 | every string is its tokens separated by its whitespace runs, the runs between tokens non-empty |
| Text.WordsIff | open_emails.py:10 | `s.split() == ws` if and only if `s` is `ws` separated by non-empty whitespace runs, with optional runs at the ends |
| Text.WordsOfTrim | open_emails.py:10 | `s.strip().split() == s.split()` |
| Text.WordsEmptyIff | open_emails.py:10-12 | `split()` yields no tokens exactly when the name is all whitespace |
| Text.ConcatWords | open_emails.py:10 | the tokens laid end to end are exactly the non-whitespace characters of the input, in order |
| Text.WordsOfJoin | open_emails.py:16 | splitting `" ".join(ws)` gives `ws` back for any tokens `split()` could produce |
| Text.JoinSpaceTrimmed | open_emails.py:16 | `" ".join` of tokens has no whitespace at either end, and is non-empty when there are tokens |
| Names.SplitName | open_emails.py:8-16 | the first name has no whitespace, the last name none at either end, and an empty first name comes with an empty last name |
| Names.SplitNameBlank | open_emails.py:10-12 | the first name is empty exactly when the name is blank, and then the result is `("", "")` |
| Names.SplitNameSingleWord | open_emails.py:10-14 | one token with any whitespace around it gives `(token, "")` |
| Names.SplitNameWords | open_emails.py:10-16 | first name = first token; the last name splits into exactly the remaining tokens; both joined with one space are the tokens joined with single spaces |
| Names.SplitNameWhitespaceInsensitive | open_emails.py:10-16 | two names with the same tokens split the same way; by `Text.WordsIff` these are the names that differ only in their whitespace runs |
| Names.SplitNameSpacing | open_emails.py:10-16 | a name made of words `ws` with any whitespace runs around and between them gives `("", "")` for no words, and otherwise `(ws[0], " ".join(ws[1:]))` |
| Names.SplitNameRejoin | open_emails.py:8-16 | `split_name(first + " " + last) == (first, last)` for every result `(first, last)` |
| Utf8.EncodeChar | open_emails.py:43-44 | one character encodes to 1 to 4 bytes, one byte exactly for ASCII, continuation bytes after the first |
| Utf8.Encode | open_emails.py:43-44 | the encoding has between one and four bytes per character |
| Utf8.DecodeEncode | open_emails.py:43-44 | decoding the UTF-8 encoding of any string gives the string back |
| Utf8.EncodeDecode | open_emails.py:43-44 | every byte string the decoder accepts is the encoding of what it decodes to |
| Utf8.EncodeCharOfDecodeFirst | open_emails.py:43-44 | the decoder accepts only the shortest encoding of a character |
| Percent.QuoteBytes | open_emails.py:43-44 | quoting bytes writes one to three characters per byte, each unreserved, `/` or `%` |
| Percent.Quote | open_emails.py:43-47 | the output of `quote` never holds `&`, `=`, `?`, `#`, space, CR or LF, so it cannot break the link's query apart |
| Percent.UnquoteQuoteBytes | open_emails.py:43-44 | percent-decoding undoes `quote_from_bytes` |
| Percent.UnquoteQuote | open_emails.py:43-44 | `unquote(quote(s)) == s` for every string, spaces, line breaks and non-ASCII text included |
| Percent.QuoteBytesIsQuoted | open_emails.py:43-44 | everything `quote` writes is safe characters and upper-case `%XX` triplets of unsafe bytes |
| Percent.QuoteBytesOfUnquote | open_emails.py:43-44 | every string of that form is `quote` of the bytes it decodes to, so the form is exactly the set of outputs |
| Percent.QuoteOfUnquote | open_emails.py:43-44 | a string of that form that decodes to text is `quote` of that text |
| Mailto.SplitLinkParts | open_emails.py:47 | whatever the reader accepts is `"mailto:" + recipient + "?subject=" + subject + "&body=" + body`, with no `?` in the recipient and no `&` in the subject |
| Mailto.SplitLinkOfLink | open_emails.py:47 | a link built from a recipient without `?` splits back into the recipient and the two encoded fields, in that order |
| Mailto.ParseLinkOfLink | open_emails.py:43-47 | the model's reader `ParseLink` gives back exactly the recipient, subject and body if and only if the recipient holds no `?` |
| Workbook.NameText | open_emails.py:93-98 | column A as text, stripped: no whitespace at either end |
| Workbook.ColumnText | open_emails.py:99-101 | `str(value or "").strip()`: `""` exactly when the cell is empty, falsy (`""`, 0, `False`) or all whitespace, and otherwise `str(value)` stripped |
| Workbook.Decimal | open_emails.py:99-101 | `str()` of an integer cell: a `-` exactly for a negative number, then decimal digits, never empty and without whitespace |
| Workbook.DecimalValue | open_emails.py:99-101 | `str(n)` reads back as `n` under an independent numeral reader, with no leading zero |
| Workbook.GenerateEmailBody | open_emails.py:35-38 | `None` exactly when the call fails; otherwise the reply stripped, with its tokens unchanged |
| Workbook.ProcessWorkbook | open_emails.py:90-136 | the loop's steps are `Scan` of the sheet and the oracles, and the reported count `row_num - 2` is the number of steps |
| Workbook.SentinelIsBlankName | open_emails.py:93-95 | the sentinel test is `str(cell).strip() == ""` of column A, an empty cell included |
| Workbook.FirstNameOfVisitedRow | open_emails.py:94-110 | a row that is not the sentinel gives `split_name` a name whose first name is not empty |
| Workbook.VisitRequest | open_emails.py:98-115 | a row is skipped for missing data exactly when recipient or type is empty; otherwise the drafter gets the first name, type and context |
| Workbook.DraftOutcome | open_emails.py:115-129 | the row fails exactly when the drafter returns `None`; otherwise the launcher gets the recipient, "Checking in" and the stripped reply, and its verdict is recorded |
| Workbook.VisitDraft | open_emails.py:115-124 | the same for the whole handling of a row |
| Workbook.ScanStopsAtFirstSentinel | open_emails.py:90-136 | the scan visits rows 2, 3, ... in order, none of them a sentinel, and stops at the first sentinel; so the count is the number of rows before it |
| Workbook.ScanIgnoresRowsAfterSentinel | open_emails.py:91-95 | two sheets that agree down to the sentinel give the same scan: nothing below it is read |
| Workbook.ScanStepIsVisit | open_emails.py:91-134 | step `k` is the handling of row `2 + k`, which is not a sentinel |
| Workbook.ScanSkipsIncompleteRows | open_emails.py:104-115 | a scanned row is skipped without drafting exactly when recipient or type is empty; every other row goes to the drafter with a non-empty first name |
| Workbook.ScanOpensDraftedRows | open_emails.py:115-124 | a scanned row fails exactly when the drafter returns `None`, and is never launched then; otherwise the launcher gets the row's recipient, "Checking in" and the stripped reply |
| Workbook.ScanLinkCarriesMessage | open_emails.py:123-124 | the link for an opened row reads back through the model's reader `Mailto.ParseLink` as exactly its message when the recipient holds no `?` |

## Left out

- The language-model client (open_emails.py:73) and the completion call (open_emails.py:27-38) are foreign network code. They are the `Completer` oracle. It receives the `DraftRequest` fields that the prompt (open_emails.py:20-25) embeds, and the prompt's wording is not modelled.
- Loading the workbook and checking for the "Working" sheet (open_emails.py:76-87) are file I/O. The sheet arrives as a sequence of rows, and the two early returns are not modelled.
- Cells hold text, integers or booleans only. Floats, dates and formulas, and how `str()` formats them, are not modelled.
- The platform branch of `open_outlook_email` (open_emails.py:49-68) starts external programs. It is the `Launcher` oracle, which returns the function's `True`/`False`. On Windows the source runs `outlook /c ipm.note /m <recipient>` and uses the link only in its fallback. So the link lemmas describe what macOS, Linux and that fallback hand to the operating system.
- `print` diagnostics and `main` (open_emails.py:138-154) are console output and configuration. The trace of steps stands for the per-row messages, and the count is returned instead of printed.
- `last_name` is computed at open_emails.py:110 but never used, so the model drops it there. `split_name` itself is modelled in full.
- `Percent.Unquote` is the model's own strict decoder, not `urllib.parse.unquote`. That function leaves a malformed `%` sequence as it is and decodes with `errors="replace"`, where the model rejects both. Its UTF-8 step is strict, like `bytes.decode` with its default `errors="strict"`.
- Dafny characters are Unicode scalar values. The error `quote` raises on a lone surrogate in a Python string is not modelled.
- The two `continue` paths of the loop are written as an if/else that computes one outcome per row (`Workbook.ProcessWorkbook`). The branches and their order are the source's.
- The source does not percent-encode the recipient. A `?` in it, legal in the local part of an address, cuts the recipient short when the link is read back. `Mailto.ParseLinkOfLink` proves that the round trip through the model's reader holds exactly when there is no `?` in the recipient.
- Mailto.ParseLink reads the recipient as it stands. A client that follows section 2 of RFC 6068 also percent-decodes the address and ends the URI at `#`, so a recipient holding `%` or `#` can reach such a client changed even without a `?`. The round-trip lemmas are stated for this reader only.
