# fetch-pharma-papers in Dafny

A verified model of the two pieces of `fetch-pharma-papers` that hold its
logic. The HTTP calls, the XML library and the command line are not modelled.

- **The paper processor** (`PaperProcessor` in `processor.py`):
  - Classifies an affiliation string as industry or academic. It lower-cases
    the string, then searches it for substrings from two keyword lists.
  - Guesses a company name from an industry affiliation, using corporate
    suffixes such as `Inc.` or `Ltd.`.
  - Keeps the papers that have at least one industry author. For each kept
    paper it emits a flat record holding the authors' display names, the
    company names, and the first email of an industry author.
- **The record shaping inside the PubMed XML parser** (`_parse_pubmed_xml` in
  `api.py`):
  - Which element texts become dictionary keys.
  - How the publication date is joined from its year, month and day.
  - How an author's email is cut out of the first affiliation that holds an
    `@`, using two index loops over boundary characters.

Files:

- `wrappers.dfy`: `Option`.
- `text.dfy`: the Python `str` operations used by the core, over `seq<char>`:
  - `isspace` and `strip`;
  - `split()` and `split(c)`;
  - `join`;
  - `find` and `in`;
  - ASCII `lower`.
- `seqs.dfy`: the accumulation shapes of the source's loops, each defined on
  a list prefix with a lemma for one more element:
  - append-if (`FilterMap`);
  - set union (`UnionOver`);
  - assign-once (`FirstNonEmpty`);
  - `any` (`AnyOf`).
- `records.dfy`: the paper and author dictionaries, with one `Option` field
  per key that may be missing, and the six-field output record.
- `processor.dfy`: the keyword constants, the classification, the
  company-name extraction, the filtering loops, and what the filter promises.
- `pubmed.dfy`: the XML elements as optional texts, the date join, the email
  scan, and the author and article shaping loops.

Two behaviours of the code that are easy to misread:

- `corresponding_author_email` is taken only from authors who qualify as
  industry authors (processor.py lines 117-124), not from any author.
- With no corporate suffix, the company name is the trimmed text before the
  first comma. When there is no comma it is the whole trimmed string, because
  `split(",")` always yields at least one part. The `return ""` at line 176 is
  never reached.

## Model

| member | source | states |
|---|---|---|
| Processor.FilterPharmaPapers | pharma_papers_core/pharma_papers/processor.py:74-136 | The nested loops produce exactly, in paper order, the record of each paper that yields one. The papers' contents are the reference `PaperRecord`. |
| Processor.FilteredPapersInOrder | pharma_papers_core/pharma_papers/processor.py:76-136 | The output is an order-preserving selection of the input papers. It holds at most one record per paper, and it includes every paper that yields a record. |
| Processor.ScanAuthors | pharma_papers_core/pharma_papers/processor.py:84-124 | The author loop builds three things: the display names of the qualifying authors in order, the union of their company sets, and the first non-empty qualifying email. |
| Processor.ScanAuthor | pharma_papers_core/pharma_papers/processor.py:85-124 | One author step. An author without affiliations changes nothing. A qualifying author appends their name and, when none has been set yet, sets their email. |
| Processor.ScanAffiliations | pharma_papers_core/pharma_papers/processor.py:92-115 | The flag is set exactly when some affiliation is industry-and-not-academic. Both company sets gain exactly the non-empty names extracted from those affiliations. |
| Processor.PaperKeptIff | pharma_papers_core/pharma_papers/processor.py:81-127 | A paper is emitted exactly when it has an `authors` key and some author has an industry affiliation. |
| Processor.PharmaAuthorNamesInOrder | pharma_papers_core/pharma_papers/processor.py:117-120 | The names joined into `non_academic_authors` are those of the qualifying authors, one per author, in author order, duplicates kept. |
| Processor.PaperCompaniesMembers | pharma_papers_core/pharma_papers/processor.py:108-115 | A name is in `company_affiliations` exactly when it is non-empty and was extracted from an industry affiliation of some author. |
| Processor.CorrespondingEmailIsFirst | pharma_papers_core/pharma_papers/processor.py:122-124 | The email is that of the first qualifying author with a non-empty email, and is "" when there is none. Emails of other authors are never used. |
| Processor.AnyKeywordInIff | pharma_papers_core/pharma_papers/processor.py:99-106 | `any(k in text for k in keywords)` holds exactly when some keyword occurs as a substring. |
| Processor.AcademicOverridesPharma | pharma_papers_core/pharma_papers/processor.py:99-108 | An affiliation whose lower-cased text contains any academic keyword is academic and never counts as industry, whatever pharma keywords it also contains. |
| Processor.LaboratoriesIsAcademic | pharma_papers_core/pharma_papers/processor.py:13-51 | An affiliation containing the pharma keyword "laboratories" also contains the academic keyword "lab", so that keyword alone never qualifies an author. |
| Processor.ExtractWithFirst | pharma_papers_core/pharma_papers/processor.py:158-169 | The first indicator in list order that occurs after position 0 decides the name. An earlier indicator found at position 0, or not found, is skipped. |
| Processor.ExtractWithNone | pharma_papers_core/pharma_papers/processor.py:158-174 | When no indicator occurs after position 0, the comma fallback decides the name. |
| Processor.NameBeforeIndicatorShape | pharma_papers_core/pharma_papers/processor.py:166-169 | Before an indicator there are one to four words. The final `strip()` removes nothing, so the name is the words, a space, and the indicator. |
| Processor.ExtractWithIndicator | pharma_papers_core/pharma_papers/processor.py:156-169 | With an applicable indicator, the name is the last one to four words of the trimmed text before its first occurrence, then a space, then the indicator. |
| Processor.ExtractWordsBeforeIndicator | pharma_papers_core/tests/test_pharma_papers.py:59-67 | When the text before the first indicator is one to four words and a space, as in "Molecular Systems Ltd., London", the name is those words and the indicator. |
| Processor.ExtractWithoutIndicator | pharma_papers_core/pharma_papers/processor.py:171-176 | Without an indicator, the name is the trimmed text before the first comma, or the whole trimmed string when it has no comma. |
| PubMed.ParsePubMed | pharma_papers_core/pharma_papers/api.py:99-192 | Produces one paper dictionary per `PubmedArticle` element, in document order. |
| PubMed.ParseArticle | pharma_papers_core/pharma_papers/api.py:104-191 | `pmid` and `title` are kept only when non-empty, and the date is joined. `authors` is always present, with one author per `Author` element. |
| PubMed.JoinDate | pharma_papers_core/pharma_papers/api.py:117-132 | The append-and-join code computes the reference date: the non-empty parts joined with "-", or no key. |
| PubMed.DatePartsSpelledOut | pharma_papers_core/pharma_papers/api.py:123-129 | The date parts are exactly the year, month and day that have text, in that order. |
| PubMed.PublicationDateRoundTrip | pharma_papers_core/pharma_papers/api.py:123-132 | The key is absent exactly when no part has text. Otherwise, splitting the date on "-" gives back the parts when none of them contains "-". |
| PubMed.ParseAuthor | pharma_papers_core/pharma_papers/api.py:140-189 | Name keys are set only for non-empty texts. `affiliations` is always set and holds the non-empty texts. `email` is what the email scan gives. |
| PubMed.KeptAffiliationsExactly | pharma_papers_core/pharma_papers/api.py:152-155 | The kept affiliations are exactly the non-empty texts, once each and in document order. |
| PubMed.ParsedAuthorEmail | pharma_papers_core/pharma_papers/api.py:160-187 | The `email` key is present exactly when some kept affiliation holds an "@", and it is then non-empty and holds an "@". |
| PubMed.ScanEmail | pharma_papers_core/pharma_papers/api.py:164-181 | The two loops stop inside the string with start <= at <= end. They cross only non-boundary characters and stop at a boundary character or at the string's ends. |
| PubMed.EmailSpanUnique | pharma_papers_core/pharma_papers/api.py:166-181 | The maximal span around a given index is unique. |
| PubMed.ExtractEmail | pharma_papers_core/pharma_papers/api.py:160-184 | The result is absent exactly when no affiliation holds "@". Otherwise it is the span around the first "@" of the first affiliation that has one, and later affiliations are ignored. |
| PubMed.FirstWithAtUnique | pharma_papers_core/pharma_papers/api.py:161-162 | The first affiliation holding "@" is unique. |
| PubMed.ExtractedEmailUnique | pharma_papers_core/pharma_papers/api.py:160-184 | The description of the extracted email determines it. |
| PubMed.ExtractedEmailShape | pharma_papers_core/pharma_papers/api.py:164-183 | The extracted email holds an "@" and no boundary character (space, `,`, `;`, `(`, `)`). |
| Text.Strip | pharma_papers_core/pharma_papers/processor.py:156 | The stripped text is empty exactly when the input is all whitespace. Otherwise it begins and ends with a non-whitespace character. |
| Text.StripSlice | pharma_papers_core/pharma_papers/processor.py:156 | The stripped text is a contiguous slice of the input, and everything outside it is whitespace. |
| Text.WordsAreWords | pharma_papers_core/pharma_papers/processor.py:166 | Every element of `split()` is non-empty and has no whitespace. |
| Text.WordsOfJoin | pharma_papers_core/pharma_papers/processor.py:166-168 | `split()` of the words joined with " " gives back the words. |
| Text.SplitJoin | pharma_papers_core/pharma_papers/processor.py:172-174 | Joining `s.split(c)` with `c` gives back `s`. |
| Text.SplitOfJoin | pharma_papers_core/pharma_papers/api.py:131-132 | Splitting a join of separator-free parts on the separator gives back the parts. |
| Text.Find | pharma_papers_core/pharma_papers/processor.py:161-163 | `find` returns the first occurrence, or -1 exactly when there is none. |
| Text.Lower | pharma_papers_core/pharma_papers/processor.py:96 | Lower-casing keeps the length, maps each character, and leaves no upper-case ASCII letter. |
| Seqs.FilterMapSelects | pharma_papers_core/pharma_papers/processor.py:117-120 | An append-if loop keeps exactly the selected elements, once each, in their original order. |
| Seqs.UnionOverMembers | pharma_papers_core/pharma_papers/processor.py:112-115 | A set built by union over a list holds exactly the members contributed by some element. |
| Seqs.FirstNonEmptyIsFirst | pharma_papers_core/pharma_papers/processor.py:122-124 | An assign-once variable ends as the first non-empty candidate, or "" when there is none. |
| Seqs.AnyOfIff | pharma_papers_core/pharma_papers/processor.py:99-106 | A flag set when some element satisfies a test is set exactly when some element does. |

## Left out

- The HTTP search and fetch (`api.py` lines 27-85) are network I/O.
- ElementTree parsing and the `find`/`findall` traversal are a foreign library. Each element arrives as an optional text, already found, with `None` for a missing element or an element without text.
- `utils.py` (`export_to_csv`) is a wrapper over pandas and file writing. It is not part of this model.
- `cli.py` (argument parsing, printing, exit codes) and `__init__.py` (re-exports) are plumbing. They are not part of this model.
- The debug flag and logging are left out, because they do not affect the results.
- The `"; "` join of `company_affiliations` follows Python set-iteration order, which is unspecified. The output record keeps the set itself.
- `lower()` is modelled on ASCII letters only. Unicode case mapping is not modelled.
- The two keyword sets are Python sets, modelled here as sequences. They are read only through `any`, and `any` does not depend on order.
- Each author iteration and each affiliation iteration of `filter_pharma_papers` is modelled as a method of its own (`ScanAuthor`, `ScanAffiliations`). The loop nesting is unchanged.
- Processor.ExtractWordsBeforeIndicator: the test strings themselves ("Pharma Inc., New York, USA" and the others) are not evaluated as concrete lemmas. The lemma states the general case those tests are instances of.
- The whole-filter test `test_filter_pharma_papers` (tests/test_pharma_papers.py lines 8-51) is not stated as a concrete lemma. It expects one record with pmid "12345678", "John Doe" among the authors and "Pharma Inc" among the companies. Concrete-string proofs over the 33 keywords and these literals exceed the verifier's resource budget. The general lemmas `FilterPharmaPapers`, `PaperKeptIff`, `PharmaAuthorNamesInOrder` and `PaperCompaniesMembers` state the behaviour the test checks.
- Dictionary values are assumed to have the types the parser writes (strings and lists of strings). Python values of other types under these keys are not modelled.
