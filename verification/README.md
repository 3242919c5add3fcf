# email-to-pdf: naming a ride receipt's PDF

`email-to-pdf` fetches Lyft ride receipts from an IMAP mailbox and writes each
one as a PDF. This project models how each PDF gets its file name and proves
properties of that naming:

- **The receipt date.** It comes from the subject line (`on <Month> <day>`).
  When the subject does not give one, the message's own `Date` header is
  used instead.
- **The amounts.** The GST and total cells are cleaned of `$` and
  surrounding whitespace.
- **The base name.** It is `<date> - Lyft[ - <total>][ - GST <gst>]`, with
  `/` and `:` replaced by `-`.
- **The collision probe.** It tries `base.pdf`, then `base (1).pdf`,
  `base (2).pdf`, and so on, until it finds a name that does not exist yet.

Modules:

- `Wrappers` holds `Option`, which stands for Python's `Optional[str]`.
- `Decimal` holds `str(n)`, `int(s)` and zero-padded formatting.
- `Text` holds `str.strip()` and `str.replace`.
- `EmailParser` holds the subject date and the amount cleaning.
- `PdfHandler` holds the base name and the probe, plus a reserving variant of
  the probe. The variant is written as a class that owns the set of taken names.
- `NamingExamples` holds worked examples on concrete subjects and cells.

The directory is modelled as a snapshot: the set of file names that exist.

## Model

| member | source | states |
|---|---|---|
| EmailParser.ExtractDateFromSubject | src/email_to_pdf/parsers/email_parser.py:13-26 | The date is always a run of ASCII digits, at least five long. |
| EmailParser.LeftmostMatchDecides | src/email_to_pdf/parsers/email_parser.py:15-24 | Only the leftmost `on <letters> <digits>` match is tried. If its word is a month name and its day fits `int()`, the date is `year + month:02 + day:02`. Otherwise, including a month-less leftmost match with a valid one further right, the result is `strftime('%Y%m%d')`. |
| EmailParser.NoMatchFallsBack | src/email_to_pdf/parsers/email_parser.py:16-26 | With no match anywhere in the subject, the result is the message date as `%Y%m%d`. |
| EmailParser.YearFromMessage | src/email_to_pdf/parsers/email_parser.py:22-26 | The year is never taken from the subject. For four-digit years, the result starts with the message's year on every path. |
| EmailParser.SearchIsLeftmost | src/email_to_pdf/parsers/email_parser.py:15-16 | `re.search` returns a match of the pattern whose groups are greedy maximal runs. No match starts to its left. If it returns no match, the pattern matches nowhere. |
| EmailParser.MatchAt | src/email_to_pdf/parsers/email_parser.py:15 | A match found at a position is a match of `on ([A-Za-z]+) (\d+)` at that position. |
| EmailParser.MatchAtComplete | src/email_to_pdf/parsers/email_parser.py:15 | At a given position there is at most one match, and the matcher finds it. |
| EmailParser.SearchFrom | src/email_to_pdf/parsers/email_parser.py:16 | The scan returns the first position at or after its start where the pattern matches. |
| EmailParser.Search | src/email_to_pdf/parsers/email_parser.py:16 | `re.search` either returns a match of the pattern, or there is no position where the pattern matches. |
| EmailParser.LeftmostSearch | src/email_to_pdf/parsers/email_parser.py:16 | When a match exists at a position and none starts before it, `re.search` returns exactly that match. |
| EmailParser.MonthNumber | src/email_to_pdf/parsers/email_parser.py:21 | `strptime(word, '%B').month` is the number (1 to 12) of the full English month name that `word` equals, ignoring case. If no name matches, the result is `None`, standing for the `ValueError`. |
| EmailParser.SubjectDateDecodes | src/email_to_pdf/parsers/email_parser.py:22 | The subject-path date reads back as the year, then the month in exactly two digits, then the day's value. The day is not checked against the calendar, and it takes more than two digits when it is 100 or more. |
| EmailParser.SubjectDate | src/email_to_pdf/parsers/email_parser.py:22 | `f"{year}{month:02d}{int(day):02d}"` is all digits. |
| EmailParser.FormatDate | src/email_to_pdf/parsers/email_parser.py:26 | `strftime('%Y%m%d')` is exactly eight digits. |
| EmailParser.FormatDateDecodes | src/email_to_pdf/parsers/email_parser.py:26 | `strftime('%Y%m%d')` reads back as the year, the month and the day. |
| EmailParser.CleanAmount | src/email_to_pdf/parsers/email_parser.py:77 | A cleaned amount holds no `$`. It neither starts nor ends with whitespace. |
| EmailParser.CleanAmountKeepsContent | src/email_to_pdf/parsers/email_parser.py:82 | Cleaning drops only whitespace and `$`. Every other character is kept, in order. |
| EmailParser.CleanAmountIdempotent | src/email_to_pdf/parsers/email_parser.py:82 | Cleaning an already cleaned amount changes nothing. |
| EmailParser.CleanAmountEmpty | src/email_to_pdf/parsers/email_parser.py:77 | A cell comes out empty exactly when it holds nothing but whitespace and `$`. |
| EmailParser.CleanAmountIsStripOfRemove | src/email_to_pdf/parsers/email_parser.py:77 | The first `strip()` makes no difference: cleaning equals removing every `$` and then stripping once. |
| EmailParser.CleanAmountExact | src/email_to_pdf/parsers/email_parser.py:82 | If a cell is an amount with no `$` and no outer whitespace, padded on both sides by whitespace and `$`, it cleans to exactly that amount. Whitespace inside the amount is kept. |
| Decimal.ValueOfShow | src/email_to_pdf/handlers/pdf_handler.py:89 | `int(str(n)) == n`. |
| Decimal.ShowOfValue | src/email_to_pdf/parsers/email_parser.py:22 | `str(int(s)) == s` for a digit string with no leading zeros. |
| Decimal.ValueIgnoresLeadingZeros | src/email_to_pdf/parsers/email_parser.py:22 | `int()` ignores leading zeros in the day. |
| Decimal.Show | src/email_to_pdf/handlers/pdf_handler.py:89 | `str(n)` is a non-empty digit string. It starts with `0` only for zero, and it has two or more digits exactly when `n >= 10`. |
| Decimal.Value | src/email_to_pdf/parsers/email_parser.py:22 | `int()` of a digit string is below ten to the power of its length. |
| Decimal.ZeroPad | src/email_to_pdf/parsers/email_parser.py:22 | Padding to a width (`:02d`, `%Y`) keeps the digits as a suffix, adds only zeros in front, and gives the width or the original length, whichever is larger. |
| Text.StripLeft | src/email_to_pdf/parsers/email_parser.py:77 | Leading whitespace is removed and only whitespace is removed. The result does not start with whitespace. |
| Text.StripRight | src/email_to_pdf/parsers/email_parser.py:77 | Trailing whitespace is removed and only whitespace is removed. The result does not end with whitespace. |
| Text.Strip | src/email_to_pdf/parsers/email_parser.py:77 | `str.strip()` never lengthens the text, and its result neither starts nor ends with whitespace. |
| Text.StripDecompose | src/email_to_pdf/parsers/email_parser.py:77 | Every string is some whitespace, then its stripped form, then some whitespace. |
| Text.StripIgnoresOuterSpace | src/email_to_pdf/parsers/email_parser.py:77 | Whitespace added at either end does not change the stripped result. |
| Text.RemoveAll | src/email_to_pdf/parsers/email_parser.py:77 | `replace('$', '')` leaves no `$` behind, never lengthens the text and adds no character that was not there. |
| Text.RemoveAllConcat | src/email_to_pdf/parsers/email_parser.py:77 | Removal works piece by piece: removing from `a + b` is removing from `a` followed by removing from `b`. |
| Text.RemoveAllSingle | src/email_to_pdf/parsers/email_parser.py:77 | A single character is dropped if it is the removed one and kept otherwise, so every other character is kept in order. |
| Text.RemoveAbsent | src/email_to_pdf/parsers/email_parser.py:82 | Removing a character that does not occur changes nothing. |
| PdfHandler.Sanitize | src/email_to_pdf/handlers/pdf_handler.py:75 | Every `/` and `:` becomes `-`. Every other character stays in place, and the length is unchanged. |
| PdfHandler.RawBaseName | src/email_to_pdf/handlers/pdf_handler.py:70-74 | The unsanitized base name starts with the date and ` - Lyft`. |
| PdfHandler.BaseName | src/email_to_pdf/handlers/pdf_handler.py:63-75 | The base name contains neither `/` nor `:`, and sanitizing keeps its length. |
| PdfHandler.RawBaseNameJoinsSegments | src/email_to_pdf/handlers/pdf_handler.py:70-74 | The base name joins its segments with ` - `: the date, `Lyft`, the total if truthy, then `GST <gst>` if truthy, in that order. |
| PdfHandler.FalsyAmountsContributeNothing | src/email_to_pdf/handlers/pdf_handler.py:71-74 | `None` and `""` amounts leave no trace in the name. |
| PdfHandler.BlankCellsContributeNothing | src/email_to_pdf/handlers/pdf_handler.py:71-74 | A GST or total cell of only whitespace and `$` leaves no trace in the name. |
| PdfHandler.BaseNameStartsWithDate | src/email_to_pdf/handlers/pdf_handler.py:63-75 | The base name starts with the subject date and ` - Lyft`, and contains neither `/` nor `:`. |
| PdfHandler.CandidateInjective | src/email_to_pdf/handlers/pdf_handler.py:89 | Different counters give different candidate names. |
| PdfHandler.CandidatesCount | src/email_to_pdf/handlers/pdf_handler.py:89 | The first `n` counters give `n` distinct names. |
| PdfHandler.TakenCandidatesBound | src/email_to_pdf/handlers/pdf_handler.py:88-92 | At most as many counters in a row can be taken as there are existing files, so the probe terminates. |
| PdfHandler.FirstFreeUnique | src/email_to_pdf/handlers/pdf_handler.py:87-92 | The first free counter is unique and at most the number of existing files. |
| PdfHandler.GetUniqueFilename | src/email_to_pdf/handlers/pdf_handler.py:79-94 | The probe returns a name that does not exist. That name is the candidate of the first counter whose name is free. If `base.pdf` is free, the probe returns `base.pdf`. |
| PdfHandler.CandidateShape | src/email_to_pdf/handlers/pdf_handler.py:89 | A candidate keeps the base name as its prefix and adds no `/` or `:`. |
| PdfHandler.Candidate | src/email_to_pdf/handlers/pdf_handler.py:89 | A candidate starts with the base name and ends with `.pdf`. |
| PdfHandler.CandidateDigits | src/email_to_pdf/handlers/pdf_handler.py:89 | For a nonzero counter, the candidate holds `str(counter)` right after the base name and ` (`, followed by `).pdf`. |
| PdfHandler.GenerateFilename | src/email_to_pdf/handlers/pdf_handler.py:63-77 | The file name does not exist, is the first free candidate for the base name, contains no `/` or `:`, and starts with the subject date and ` - Lyft`. |
| PdfHandler.ProbesAgree | src/email_to_pdf/handlers/pdf_handler.py:79-94 | Two probes of the same directory state return the same name. |
| PdfHandler.NameArbiter.ReserveUnique | src/email_to_pdf/handlers/pdf_handler.py:79-94 | The first free name is returned and recorded as taken in the same step. |
| PdfHandler.NameArbiter.ReserveFilename | src/email_to_pdf/handlers/pdf_handler.py:63-77 | The file name for an email is the first free candidate for its base name. It did not exist, contains no `/` or `:`, starts with the subject date and ` - Lyft`, and is recorded as taken. |
| PdfHandler.ReserveMany | src/email_to_pdf/handlers/pdf_handler.py:79-94 | Successive reservations of one base name get pairwise different names, none of which existed. On a directory holding none of them, they come out in counter order. |
| NamingExamples.RideOnMarch5 | src/email_to_pdf/parsers/email_parser.py:13-22 | "Your ride on March 5" in a message of 9 June 2024 gives `20240305`. |
| NamingExamples.DayNotChecked | src/email_to_pdf/parsers/email_parser.py:21-22 | "on march 045" gives `20240345`: the month is read in any case, the day's leading zero is dropped, and the day is not checked. |
| NamingExamples.OnlyLeftmostTried | src/email_to_pdf/parsers/email_parser.py:16-26 | For "on Monday 5, on March 7", the leftmost match names no month, so the message date `20240609` is used. |
| NamingExamples.CleanDollarAmount | src/email_to_pdf/parsers/email_parser.py:82 | The cell " $12.34 " cleans to `12.34`. |
| NamingExamples.InteriorSpaceKept | src/email_to_pdf/parsers/email_parser.py:82 | The cell " $1 2 " cleans to `1 2`: whitespace inside the amount survives, so cleaning is not the same as dropping every whitespace character and `$` (which gives `12`). |

## Left out

- `converter.py`, `imap_handler.py` and `cli.py`: mailbox access, the worker pool and the command line are not part of this model.
- `parse_email_content` and `_get_email_body`: MIME header decoding, body selection and `parsedate_to_datetime` are library calls. The model starts from the resulting record (`ParsedEmail`), with the date reduced to its calendar fields.
- `_extract_values_from_body`: the HTML search for the GST and total cells is left out (a BeautifulSoup call). Only the cleaning of the cell text at lines 77 and 82 is modelled.
- `generate_pdf` and `_render_template`: HTML rendering, `write_pdf` and the existence check after writing are I/O. They are not modelled.
- The probe's `fcntl` lock file: cross-process locking is not modelled. The directory is a set of names given as a parameter, and `os.path.exists` is membership in it.
- EmailParser.ExtractDateFromSubject: `\d` is modelled as the ASCII digits only, but Python's `re` also matches other Unicode decimal digits.
- EmailParser.ExtractDateFromSubject: the `int()` digit limit is fixed at CPython's default of 4300 digits. Changing it at run time is not modelled.
- EmailParser.FormatDate: `%Y` is modelled zero-padded to four digits. Some C libraries print years below 1000 unpadded. The subject path's `{year}` is never padded.
- The time of day and the time zone of the message date do not affect the name, so they are not modelled.

## Findings

| source | as written | input that shows it | evidently intended | confidence | as-written member | corrected member |
|---|---|---|---|---|---|---|
| src/email_to_pdf/handlers/pdf_handler.py:79-94 | The probe holds the lock only while it looks for a free name. It releases the lock on return, before `write_pdf` (line 28) creates the file. | Two pool workers handle receipts with the same base name while the directory holds no `base.pdf`. Both probe before either writes, both get `base.pdf`, and the second PDF overwrites the first. | The name handed out is reserved in the same locked step, so a later probe skips it. | not executed | PdfHandler.ProbesAgree | PdfHandler.NameArbiter.ReserveUnique |
