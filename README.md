# explode_bulkprint: the outline pass

`explode_bulkprint.py` takes "bulk print" PDFs from an applicant-tracking
system. Each PDF holds, for every candidate, a "Candidate Details" page
followed by that candidate's attached resume. The script splits the PDFs
into `candidates.csv` (id, title, first name, last name, email) and one file
`resumes/<id>.pdf` per candidate. Bookmarks drive the split.

This project models the script's one forward pass over the bookmark
outlines of its input PDFs (lines 58-136) and proves what it does:

- `base.dfy` — `Option`, `Result`, and the exceptions that stop the pass
  (`Failure`: `IndexError`/`ValueError` raised at a named expression).
- `text.dfy` — Python's `str.strip()`, `str.split()` (with Python's
  `isspace` set), `str.split('\n')`, `list.index`, and substring search.
  They are proved against reference properties: `Strip` removes exactly
  the whitespace at both ends, `Words` returns whitespace-free words and
  loses no letter, split and join are inverse.
- `titles.dfy` — the three bookmark-title regexes of lines 82, 111 and
  134. They are written as computable predicates. Each is proved
  equivalent to the pattern as `re.match` reads it: anchored at the
  start, `.` not matching `'\n'`, `$` matching at the end or before a
  final `'\n'`.
- `outline.dfy` — the outline as a sequence of `Top(title, page)` and
  `Nested` entries. It covers the scan for the next top-level bookmark
  (lines 116-121) and the copy of a resume's pages (lines 127-128).
- `candidate.dfy` — reading a "Candidate Details" page into title, first
  name, last name and email (lines 86-99).
- `explode.dfy` — the pass itself. `Visit`, `Walk` and `Run` are the
  state change of one bookmark, one document and all documents. The
  class `Exploder` holds the script's global state: the three counters,
  the CSV rows written so far, and the resume files written so far. Its
  loop methods are proved to end in exactly the state that `Walk` and
  `Run` give. Lemmas about `Walk` and `Run` cover:
  - the id numbering;
  - what one bookmark can do to the counters;
  - the inertness of nested entries;
  - where a resume is filed.

A PDF is a `Doc(outline, pages)`. `outline` holds each bookmark with its
resolved page number. `pages` holds the extracted text of each page, and
`|pages|` is the page count. The documents are numbered 0, 1, ... in the
order of `INPUT_PDFS`, and a resume file records the number of the
document its pages come from.

On these points the model follows the code as written:

- The details test is `re.match(r'.* Candidate Details', title)`. That is
  containment of `" Candidate Details"` in the title's first line, not a
  suffix test.
- The name is read from line 0 of the page, even if that line is empty.
- The email label must be a line exactly equal to `Email Address:`. The
  first such line is used.
- A resume bookmark with no top-level bookmark after it raises
  `IndexError`. It is not extended to the end of the document.
- Any exception (a short name line, a missing email label, a page out of
  range) ends the whole run. The rows and files written before it remain.
  Nothing is skipped and continued.

## Model

| member | source | states |
|---|---|---|
| Text.TrimStartSpec | explode_bulkprint/explode_bulkprint.py:87 | `str.strip`'s left half removes exactly the leading whitespace: the result is a suffix, what was removed is all whitespace, and it starts with a non-space or is empty |
| Text.TrimEndSpec | explode_bulkprint/explode_bulkprint.py:87 | the right half removes exactly the trailing whitespace, with the same three facts mirrored |
| Text.StripIsCore | explode_bulkprint/explode_bulkprint.py:87 | `strip()` returns the slice of the input between its leading and trailing whitespace, and starts and ends with a non-space |
| Text.TakeWordSpec | explode_bulkprint/explode_bulkprint.py:87 | a word read from the text is its longest whitespace-free prefix |
| Text.WordsAreWords | explode_bulkprint/explode_bulkprint.py:87 | every token of `str.split()` is non-empty and whitespace-free |
| Text.WordsKeepLetters | explode_bulkprint/explode_bulkprint.py:87 | the tokens, concatenated, are exactly the input's non-whitespace characters in order |
| Text.WordsOfJoined | explode_bulkprint/explode_bulkprint.py:87 | splitting space-joined words gives back those words |
| Text.WordsAfterSpaces | explode_bulkprint/explode_bulkprint.py:87 | whitespace of any kind in front of a text adds no token to `str.split()` |
| Text.WordsOfLayout | explode_bulkprint/explode_bulkprint.py:87 | for any words separated by non-empty whitespace runs of any kinds and lengths, with any runs at the ends, `str.split()` yields exactly those words |
| Text.SpacedAndTabbedWords | explode_bulkprint/explode_bulkprint.py:87 | `Mr`, two spaces, `John`, a tab, `Public` splits into the three words |
| Text.WordsOfWordThen | explode_bulkprint/explode_bulkprint.py:87 | a word followed by whitespace or nothing is the first token |
| Text.SplitOn | explode_bulkprint/explode_bulkprint.py:86 | `str.split('\n')` yields at least one piece and no piece holds the separator |
| Text.JoinSplit | explode_bulkprint/explode_bulkprint.py:86 | joining the pieces of `split` gives back the text |
| Text.SplitJoin | explode_bulkprint/explode_bulkprint.py:86 | splitting joined separator-free pieces gives back the pieces |
| Text.FirstPiece | explode_bulkprint/explode_bulkprint.py:86-87 | line 0 is the prefix of the text up to the first separator, or all of it |
| Text.JoinWithEnds | explode_bulkprint/explode_bulkprint.py:86 | (a proof step for `ParseLaidOutPage`, which builds a page by joining lines; the script itself never joins) a join of non-empty pieces starts with the first piece's first character, ends with the last piece's last character, and holds no character, other than the separator, that no piece holds |
| Text.IndexOf | explode_bulkprint/explode_bulkprint.py:99 | `list.index` finds the first position holding the value, and finds nothing exactly when the value is absent |
| Text.ContainsFindsOccurrence | explode_bulkprint/explode_bulkprint.py:82 | substring search succeeds exactly when the pattern occurs at some position |
| Titles.DetailsTitleIsMatch | explode_bulkprint/explode_bulkprint.py:82 | the details predicate holds exactly when `re.match(r'.* Candidate Details', title)` matches |
| Titles.ResumeTitleIsMatch | explode_bulkprint/explode_bulkprint.py:111 | the resume predicate holds exactly when `re.match(r'.*\.pdf$', title)` matches |
| Titles.ErrorTitleIsMatch | explode_bulkprint/explode_bulkprint.py:134 | the error predicate holds exactly when `re.match(r'.*\.pdf \(.*\)$', title)` matches |
| Titles.ResumeIsNeverError | explode_bulkprint/explode_bulkprint.py:111-136 | no title is both a resume title and an error title |
| Outline.FirstTop | explode_bulkprint/explode_bulkprint.py:116-121 | the first top-level entry of a list, every entry before it nested; none exactly when all are nested |
| Outline.NextTopLevel | explode_bulkprint/explode_bulkprint.py:116-121 | the loop returns the smallest k > i whose entry is top-level, with every entry strictly between nested; none (the `IndexError`) exactly when every later entry is nested |
| Outline.FirstTopOfTopOnly | explode_bulkprint/explode_bulkprint.py:116-121 | with nested entries removed, the next top-level entry is the first one, and it is the same bookmark |
| Outline.PageRange | explode_bulkprint/explode_bulkprint.py:127 | `range(lo, hi)` has max(hi - lo, 0) elements, the k-th being lo + k |
| Outline.PageRangeHalfOpen | explode_bulkprint/explode_bulkprint.py:127 | a page is in `range(lo, hi)` exactly when lo <= page < hi |
| Outline.CopyPages | explode_bulkprint/explode_bulkprint.py:127-128 | the copy succeeds exactly when every page of the range exists, and then holds the range in order; otherwise it fails at the first missing page |
| Outline.ExtractPages | explode_bulkprint/explode_bulkprint.py:126-128 | the `for j in range(...)` loop appending pages ends as `CopyPages` says |
| Outline.SegmentsDisjoint | explode_bulkprint/explode_bulkprint.py:116-128 | when bookmark pages ascend, no page is in the resumes of two different bookmarks |
| Candidate.ParseName | explode_bulkprint/explode_bulkprint.py:87-98 | a title from `TITLES` in token 0 is taken, with token 1 the first name; otherwise the title is empty and token 0 is the first name; the last name is the last token; an empty line or a title alone raises `IndexError` |
| Candidate.FindEmail | explode_bulkprint/explode_bulkprint.py:99 | the email is found exactly when some line equals `Email Address:` and the first such line has a line after it, and it is that next line stripped; no such line raises `ValueError`; the label as last line raises `IndexError` |
| Candidate.ParseDetailsSpec | explode_bulkprint/explode_bulkprint.py:86-99 | a page reads exactly when the words of its line 0 give a name (one word, two when the first is a title) and its first label line has a line after it; the title is word 0 when it is in `TITLES`, else empty; the first name is the next word; the last name is the last word; the email is the stripped line after the first label; a failing page raises the name's error (`EmptyNameLine`, `MissingFirstName`) before the email's (`MissingEmailLabel`, `MissingEmailLine`) |
| Candidate.TitledNameDropsMiddle | explode_bulkprint/explode_bulkprint.py:86-99 | a page with lines `Mr John Q Public`, the label and an address reads as Mr / John / Public with the address stripped |
| Candidate.UntitledName | explode_bulkprint/explode_bulkprint.py:86-99 | a page with name line `Jane Doe` reads as no title / Jane / Doe |
| Candidate.OneWordName | explode_bulkprint/explode_bulkprint.py:86-99 | a page with name line `Cher` reads as no title / Cher / Cher |
| Candidate.ParseLaidOutPage | explode_bulkprint/explode_bulkprint.py:86-99 | a page laid out as a name line of one or more words (two when the first is a title), the label, and an email line reads back as the title, first name, last word and stripped email it was made from |
| Explode.DetailsStepEffect | explode_bulkprint/explode_bulkprint.py:82-106 | a details bookmark raises the id by one before parsing; on success it appends exactly one row, carrying the new id, and changes no other counter and no file |
| Explode.ResumeStepEffect | explode_bulkprint/explode_bulkprint.py:111-132 | a resume bookmark raises the resume count by one and touches neither the id nor the rows |
| Explode.VisitCounters | explode_bulkprint/explode_bulkprint.py:82-136 | each counter moves by at most one per bookmark and the two resume counters never both; without an exception, each moves exactly when the title is of its kind |
| Explode.VisitRowsAndFiles | explode_bulkprint/explode_bulkprint.py:72-132 | a nested entry changes nothing; a row is added only with a fresh id; a file is written only by a resume bookmark |
| Explode.VisitNumbers | explode_bulkprint/explode_bulkprint.py:83-106 | one bookmark keeps the rows numbered 1, 2, ... with one row per id handed out |
| Explode.WalkNumbers | explode_bulkprint/explode_bulkprint.py:72-106 | across one PDF the rows stay numbered 1..n, earlier rows are kept, and the id rises by the number of details bookmarks; an exception leaves at most the last id without a row |
| Explode.RunNumbers | explode_bulkprint/explode_bulkprint.py:62-106 | across all PDFs, with the counter never reset, the same holds with the total number of details bookmarks |
| Explode.IdsAreOneToN | explode_bulkprint/explode_bulkprint.py:62-106 | from the start state, the ids in candidates.csv are exactly 1..N in order, N being the number of details bookmarks |
| Explode.VisitSeesOnlyTopLevel | explode_bulkprint/explode_bulkprint.py:116-124 | one bookmark's effect depends on the entries after it only through the top-level ones |
| Explode.NestedEntriesAreInert | explode_bulkprint/explode_bulkprint.py:72-75 | removing every nested entry from an outline changes nothing the pass does |
| Explode.ResumeFiledUnderCurrentId | explode_bulkprint/explode_bulkprint.py:83-132 | a resume is written under the current id (0 before any details bookmark), overwriting only that id's file, and holds the pages from its bookmark up to the next top-level bookmark |
| Explode.TrailingResumeRaises | explode_bulkprint/explode_bulkprint.py:116-121 | a resume bookmark that is not also a details bookmark, on an existing page, with only nested entries after it, counts the resume and then raises `IndexError` |
| Explode.WalkFilesWithinIds | explode_bulkprint/explode_bulkprint.py:83-131 | within one PDF, every resume file stays named after an id already handed out, or 0 |
| Explode.RunFilesWithinIds | explode_bulkprint/explode_bulkprint.py:65-131 | the same across all PDFs |
| Explode.FilesNamedAfterIds | explode_bulkprint/explode_bulkprint.py:62-131 | from the start state, every file under `resumes/` is named after an id handed out, or 0; with no details bookmark at all, every resume goes to `0.pdf` |
| Explode.Exploder.constructor | explode_bulkprint/explode_bulkprint.py:58-62 | the counters start at 0, with no rows and no files |
| Explode.Exploder.ReadDetails | explode_bulkprint/explode_bulkprint.py:82-106 | the details branch changes the state as `DetailsStep` says |
| Explode.Exploder.CutResume | explode_bulkprint/explode_bulkprint.py:111-132 | the resume branch (scan, then copy) changes the state as `ResumeStep` says |
| Explode.Exploder.VisitEntry | explode_bulkprint/explode_bulkprint.py:72-136 | the body of `for i, dest in enumerate(doc.outlines)` changes the state as `Visit` says |
| Explode.Exploder.ProcessDocument | explode_bulkprint/explode_bulkprint.py:72-136 | the loop over one outline ends in the state and exception `Walk` gives |
| Explode.Exploder.ProcessAll | explode_bulkprint/explode_bulkprint.py:65-136 | the loop over the input PDFs ends as `Run` gives |
| Explode.Explode | explode_bulkprint/explode_bulkprint.py:58-136 | the script, from its start state, ends as `Run` gives from `Start` |

## Left out

- PyPDF2 is outside the model: opening a PDF, `getDestinationPageNumber`, `extractText`, and writing the output PDFs. An outline entry carries its resolved page number, a page is its extracted text, and a written resume is the list of page numbers copied.
- `getPage` is modelled only by the page count: it fails with `IndexError` exactly when the page number is not below the number of pages.
- Outline.Entry: a bookmark's resolved page is a `nat`, assumed to be 0 or more. PyPDF2's `getDestinationPageNumber` returns -1 for a destination whose page it cannot find. Python's negative indexing would then make `getPage(-1)` return the last page, and `range(-1, ...)` would start at -1. Neither the -1 result nor that negative indexing is modelled.
- The input-file existence check and `os.makedirs` (lines 37-49) are left out. They only end the script with `sys.exit` before the pass starts.
- Opening, writing and closing `candidates.csv` (lines 52-55, 139) are left out. Rows are an appended sequence of records, and CSV quoting is not modelled.
- `print` calls and the summary (lines 66, 88, 113, 140-143) are left out.
- Opening files and I/O errors are left out. A resume file is a map entry keyed by id, so writing it again replaces it.
- Text is a sequence of Unicode code points. Python's `isspace` set is written out, but bytes, encodings and PDF text-extraction quirks are not modelled.
- The script's loop body (lines 72-136) is inline; here it is split into the methods `VisitEntry`, `ReadDetails` and `CutResume`. The split is structure only and changes no behaviour.
