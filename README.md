# Certificate extraction, modelled in Dafny

This project models the part of `pdfextract.py` that turns the text of a
mark certificate into a record `(name, register_number, marks_dict)`, and the
rules that decide which text gets parsed. Four regular-expression searches
are written out as hand-built matchers over `seq<char>`:

- the register number;
- the honorific name rule;
- the `certify ... appeared` fallback name rule;
- the per-subject total pattern.

Each search is modelled in three layers:

- a ghost *parse* predicate describes every way the pattern can match at a
  position;
- a computed *choice* is the parse Python's backtracking matcher settles on
  there;
- `re.search` is the first position with a choice.

Lemmas prove that each choice is a parse the matcher prefers over every other
parse at that position. They then state what each field is in terms of the
parse predicates and the character-run helpers (`Span`, `Strip`, `Value`,
`TotalStartsAt`), not the matcher's choice.

`marks_dict` is an insertion-ordered list of `Mark`s with Python's
dict-assignment semantics (`Put`). It is filled by a loop, like the source's
`for subject in subjects`.

Text acquisition is modelled as two page-concatenation loops. Their inputs
are what the PDF and OCR libraries would yield. `main` is modelled as a
method over those inputs and a flag saying whether the database connection
succeeded. It records which steps a run takes.

Modules:

| module | contents |
|---|---|
| `Options` | the `Option` type |
| `Chars` | the ASCII character classes, spans of a class, `First` and `Last` searches, `str.strip()`, the integer value of a digit string |
| `Records` | the record and mark types |
| `Register` | the register number |
| `Name` | the name |
| `Marks` | the subject totals and `marks_dict` |
| `Acquisition` | the text layer and OCR text |
| `Extract` | `extract_name_and_marks` |
| `Pipeline` | `main` |

## Model

| member | source | states |
|---|---|---|
| Chars.Span | pdfextract.py:77 | the run of a character class starting at a position: every character in it is in the class, and the next one is not (greedy `\s+`, `\d+`, `[A-Z\s.]+`) |
| Chars.SpanUnique | pdfextract.py:77 | a run that is followed by a character outside the class is the greedy span, so backtracking into it never gives a different match |
| Chars.First | pdfextract.py:77 | `re.search` scans start positions left to right: the result satisfies the test, nothing before it does, and None means no position does |
| Chars.Last | pdfextract.py:83 | the last position in a range that satisfies a test, with nothing after it satisfying it: where a greedy group backtracks to |
| Chars.Strip | pdfextract.py:84 | `str.strip()`: the result neither starts nor ends with whitespace and is no longer than the input |
| Chars.StripEmpty | pdfextract.py:84 | stripping gives the empty string exactly when the text is whitespace only |
| Chars.StripPadded | pdfextract.py:84 | whitespace added at either end does not change the stripped text |
| Chars.StripTrimmed | pdfextract.py:84 | a text that neither starts nor ends with whitespace is its own strip |
| Chars.StripIdempotent | pdfextract.py:84 | stripping twice is stripping once |
| Chars.StripSkipsLeadingSpaces | pdfextract.py:83-84 | dropping leading whitespace before stripping does not change the result |
| Chars.Lower | pdfextract.py:77 | IGNORECASE folding: letters stay letters and become lower case, lower-case letters and non-letters are unchanged |
| Chars.Value | pdfextract.py:99 | computes `int()` of a digit string in base ten |
| Chars.ValueLeadingZero | pdfextract.py:99 | `int()` ignores leading zeros |
| Chars.ValueBound | pdfextract.py:99 | `int()` of n digits is below 10^n |
| Chars.ValueOfTwo | pdfextract.py:99 | `int()` of two digits is ten times the first plus the second |
| Register.RegisterChoice | pdfextract.py:77 | the parse the matcher settles on at a position: the forced whitespace runs and the whole digit run; any result is a parse of `Register\s+Number\s+(\d+)` |
| Register.RegisterNumber | pdfextract.py:77-78 | computes `register_match.group(1)` of the first match, or "Unknown" |
| Register.RegisterChoiceIsPreferred | pdfextract.py:77 | the matcher's choice at a position exists whenever any parse of `Register\s+Number\s+(\d+)` does there, and it takes the longest digit run |
| Register.RegisterSearch | pdfextract.py:77 | the search stops at a position with a choice, and no earlier position has one |
| Register.RegisterUnknownIff | pdfextract.py:77-78 | the register number is "Unknown" exactly when no case-insensitive `Register<ws+>Number<ws+><digit>` occurs |
| Register.RegisterSearchFindsFirst | pdfextract.py:77 | the search stops at the first occurrence of the label followed by a digit |
| Register.RegisterNumberIsFirstDigitRun | pdfextract.py:77-78 | the register number is the whole digit run after the first occurrence, as text: non-empty, digits only, leading zeros kept |
| Register.RegisterNumberDigits | pdfextract.py:78 | whenever the pattern matches, the register number is a non-empty string of digits |
| Name.HonorificChoice | pdfextract.py:81 | the parse the matcher settles on at a position: `mr` or `ms` (never a dotted alternative), the greedy `\s*`, given back one character when the name run is whitespace only, then the greedy group; the group lies inside the text |
| Name.HonorificChoiceIsParse | pdfextract.py:81 | the honorific matcher's choice is a parse of `(?:Mr\|Ms\|Mr\.\|Ms\.)\s*([A-Z\s.]+)` under IGNORECASE |
| Name.HonorificChoiceIsPreferred | pdfextract.py:81 | the choice exists whenever any parse does; it uses the earliest alternative (so never `Mr.` or `Ms.`), the longest `\s*`, then the longest group |
| Name.HonorificSearch | pdfextract.py:81 | the honorific search stops at the first position with a choice |
| Name.HonorificGroupStrips | pdfextract.py:81-84 | stripped, the group is the whole name run after the two letters |
| Name.CertifyChoice | pdfextract.py:83 | computes the parse the fallback matcher settles on at a position: forced whitespace runs around "certify" and "that", then all the leading whitespace and the group up to the last stop, or a one-character group when none is left after that whitespace |
| Name.CertifyChoiceParses | pdfextract.py:83 | the fallback matcher's choice is a parse of `certify\s+that\s+([A-Z\s.]+)\s+appeared`, and its group ends at the last place the name run allows |
| Name.CertifyChoiceIsPreferred | pdfextract.py:83 | the fallback choice exists whenever any parse does; it takes the longest leading whitespace, then the longest group |
| Name.LastGroupStop | pdfextract.py:83 | the greedy group backtracks to the last place in the name run where whitespace and then "appeared" follow |
| Name.CertifySearch | pdfextract.py:83 | the fallback search stops at the first position with a choice |
| Name.NameOf | pdfextract.py:81-84 | computes the name: the stripped honorific group when that search matches, otherwise the stripped fallback group, otherwise "Unknown" |
| Name.NameFromHonorific | pdfextract.py:81-84 | when an honorific first occurs at i, the name is the name run after its two letters, stripped; it has no whitespace at either end; the honorific is `mr` or `ms` in some case |
| Name.NameFromCertify | pdfextract.py:82-84 | when no honorific occurs and the fallback first occurs at i, the name is the text from "that" to the last place before "appeared" where the group can stop, stripped |
| Name.NameUnknownWithoutMatch | pdfextract.py:82-84 | when neither pattern occurs anywhere, the name is "Unknown" |
| Name.DotStaysInName | pdfextract.py:81-84 | "Mr. JOHN" gives ". JOHN" |
| Name.EmptyName | pdfextract.py:81-84 | "Mr 1" gives the empty name, not "Unknown" |
| Name.UnknownFromHonorific | pdfextract.py:81-84 | "Mr Unknown" gives "Unknown" although the honorific rule matched |
| Marks.TotalAtIsGreedy | pdfextract.py:96 | backtracking into `(\d+)\s+` never helps: the group is the whole digit run and `\s+` the whole whitespace run |
| Marks.FirstTotal | pdfextract.py:96 | the lazy `.*?` stops at the first position after the label where digits, whitespace and `[A-Z+]` follow |
| Marks.SubjectChoice | pdfextract.py:96 | the parse the matcher settles on at a position: the label, the shortest skip, then the greedy digit group and whitespace; the group lies inside the text |
| Marks.SubjectChoiceIsParse | pdfextract.py:96 | the subject matcher's choice is a parse of `{subject}.*?(\d+)\s+[A-Z+]` |
| Marks.SubjectChoiceIsPreferred | pdfextract.py:96 | the choice exists whenever any parse does, and it skips least and then takes the greedy group |
| Marks.SubjectSearch | pdfextract.py:97 | the subject search stops at the first position with a choice |
| Marks.SubjectTotal | pdfextract.py:97-99 | computes `int(match.group(1))` of the first match of the subject pattern, or None |
| Marks.SubjectSearchAtFirstOccurrence | pdfextract.py:96-97 | when the pattern matches at all, it matches at the label's first occurrence |
| Marks.SubjectTotalPresent | pdfextract.py:97-98 | a subject gets a total exactly when its label occurs and is later followed by digits, whitespace and `[A-Z+]` |
| Marks.SubjectTotalIsFirstRun | pdfextract.py:96-99 | the total is `int()` of the first such digit run after the label's first occurrence |
| Marks.FirstRunIsWhole | pdfextract.py:96 | when the label does not end in a digit, that digit run is a whole run, not the tail of a longer one |
| Marks.PhysicsExample | pdfextract.py:96-99 | "PHYSICS 78 A+" gives PHYSICS the total 78 |
| Marks.Keys | pdfextract.py:100 | the keys of a dict, in insertion order |
| Marks.Put | pdfextract.py:100 | `marks_dict[key] = value`: the key maps to the value, other keys keep their values, a new key goes at the end, and an existing key keeps its place |
| Marks.MarksFor | pdfextract.py:87-100 | computes the dict after the loop has run over a list of subjects: each subject with a total is `Put` in list order |
| Marks.ExtractMarks | pdfextract.py:87-100 | the loop builds the dict the specification function describes |
| Marks.MarksLookup | pdfextract.py:95-100 | after the loop, a listed subject maps to its total (or is absent without one), and nothing else is a key |
| Marks.MarksKeys | pdfextract.py:95-100 | with distinct subjects, the keys are the subjects that get a total, in list order |
| Marks.PresentMembers | pdfextract.py:95-100 | a key is present exactly when it is a listed subject with a total, and keys are distinct when the subjects are |
| Marks.MarksEmpty | pdfextract.py:95-118 | the dict is empty exactly when no subject gets a total |
| Extract.Extraction | pdfextract.py:75-102 | computes the triple (name, register number, marks) of a text |
| Extract.ExtractNameAndMarks | pdfextract.py:75-102 | the method computes the record of the text, reading only its argument and changing nothing |
| Extract.SubjectsDistinct | pdfextract.py:90-93 | the six subject labels are distinct |
| Extract.ExtractionMarks | pdfextract.py:86-102 | `marks_dict` has as keys the listed subjects that get a total, each once and in list order; each maps to its total |
| Acquisition.Concat | pdfextract.py:53-54 | computes the join of a list of texts, in order, with no separator (`text += ...`) |
| Acquisition.TextLayer | pdfextract.py:49-59 | computes what `extract_text_pdf` returns: None for an unreadable document, otherwise the join of the page texts, a page without text contributing "" |
| Acquisition.OcrText | pdfextract.py:62-72 | computes what `extract_text_ocr` returns: None when conversion failed, otherwise the join of the OCR texts |
| Acquisition.TextLayerPageAt | pdfextract.py:53-54 | page k's text, "" for a page without a text layer, sits in the text layer right after the texts of pages 0..k-1, with nothing between |
| Acquisition.ConcatAppend | pdfextract.py:53-54 | joining two lists of texts is joining the two joins |
| Acquisition.ConcatPartAt | pdfextract.py:53-54 | each page's text sits in the join right after the pages before it, with no separator |
| Acquisition.ConcatLength | pdfextract.py:53-54 | the join's length is the sum of the lengths |
| Acquisition.ConcatEmpty | pdfextract.py:53-54 | the join is empty exactly when every text is |
| Acquisition.ExtractTextPdf | pdfextract.py:49-59 | the page loop yields the join of the page texts, or None when the document could not be read |
| Acquisition.ExtractTextOcr | pdfextract.py:62-72 | the image loop yields the join of the OCR texts, or None when conversion failed |
| Acquisition.TextLayerPages | pdfextract.py:52-56 | a readable document yields a text, empty exactly when no page has any text |
| Pipeline.Or | pdfextract.py:110 | `a or b` on optional texts: the result is one of the two, and it is falsy only when both are |
| Pipeline.Process | pdfextract.py:107-125 | without a connection nothing happens; OCR is consulted exactly when the text layer yields None or ""; extraction runs exactly when the chosen text is non-empty; insertion is attempted exactly when some subject gets a total |
| Pipeline.TextChoice | pdfextract.py:110 | a non-empty text layer, even whitespace only, is used as it is; one yielding nothing falls back to OCR |

## Left out

- `connect_db` and `insert_data` (pdfextract.py:17-46) are PostgreSQL I/O and are not part of this model. The run only records that an insert is attempted. The INSERT passes four parameters to three placeholders, so its outcome would be a driver error in any case.
- The printed messages, the credentials (pdfextract.py:8-14), the file path (pdfextract.py:106) and `conn.close()` are left out.
- `pdfplumber`, `pdf2image` and `pytesseract` are taken as parameters.
  - A document is `None` when opening or reading it raised. Otherwise it is the list of what each page's `extract_text()` returned.
  - The OCR input is `None` when conversion raised. Otherwise it is the list of texts, one per image.
  - An exception part-way through a loop is therefore modelled only as the whole call returning `None`.
- `\s`, `\d` and IGNORECASE are modelled on ASCII.
  - `\s` is characters 9-13 and 28-32.
  - `\d` is '0'-'9'.
  - Case folding maps 'A'-'Z' to 'a'-'z'.
  - Unicode digits, Unicode whitespace and Unicode case folding are not modelled.
- Chars.Value: CPython's `int()` raises ValueError for a digit string longer than the interpreter's limit (4300 digits by default, since 3.11 and the 3.7-3.10 security releases), and nothing in `extract_name_and_marks` or `main` catches it, so such a run ends without inserting. The model has no limit: Marks.SubjectTotal gives a total for any length, and Pipeline.Process records an insert attempt.
- Name.NameUnknownWithoutMatch: only this direction holds. A name of "Unknown" does not mean neither pattern matched (see Name.UnknownFromHonorific).
