# paperfetcher core in Dafny

This project models the decision logic of `paperfetcher`, a command that searches PubMed, keeps the papers with at least one author at a pharmaceutical or biotech company, and writes a six-column CSV report. It covers two parts:

- **Record extraction and affiliation classification** (`paperfetcher/processor.py`, module `Processor`).
  - A parsed PubMed article document becomes a `PaperRecord`. PMID, title and year are mandatory. Authors without a last name are skipped.
  - Each author's affiliation fragments are classified by lower-case substring tests against two fixed vocabularies, `AcademicKeywords` and `PharmaCompanies`.
  - The email of the last kept author whose email text contains `@` is recorded.
  - Two pure operations act on records: the non-academic author filter and the company gate.
- **Selection and report rows** (`paperfetcher/cli.py`, module `Cli`).
  - The per-id loop of `main` skips ids whose fetch gave no content, whose document yields no record, or whose record fails either gate. It keeps the filtered record of every other id, in id order.
  - `prepare_csv_output` turns each kept record into a row. A row is an ordered list of (column, text) pairs with the six fixed column names.

Supporting modules:

- `Text`: ASCII `lower`/`capitalize`, the substring test and `str.join`.
- `Seqs`: the comprehension and loop shapes the code uses. `Filter` and `FilterMap` have index-based characterisations: which positions are kept, in what order, and that none is missed. `LastSome` is last-write-wins: its contract says which single element's value wins.
- `Models`: the two record shapes of `paperfetcher/models.py`.
- `Wrappers`: `Option`.

The operations built from loops are methods proved equal to specification functions: `ParsePubmedXml`, `ExtractAuthor`, `ClassifyAffiliations`, `FindCompany`, `PrepareCsvOutput` and `SelectPapers`. `Run` has no loop of its own. It calls `SelectPapers` and `PrepareCsvOutput` and picks the outcome. The properties are proved about the specification functions as lemmas.

Three facts about the code shape the model:

- `is_non_academic` is set by any non-academic fragment and never reset (paperfetcher/processor.py:61-71), so it is an OR over the fragments.
- `company` is replaced only by a later non-academic fragment that itself contains a company name (paperfetcher/processor.py:72-76). So the company comes from the last fragment that sets one.
- The recorded email is the one from the last kept author whose email text contains `@` (paperfetcher/processor.py:78-81). Authors skipped for having no last name never reach that step (paperfetcher/processor.py:48-49).

## Model

| member | source | states |
|---|---|---|
| `Text.Lower` | paperfetcher/processor.py:65 | lower-casing gives the same length, maps each upper-case ASCII letter to its own lower-case letter and keeps every other character |
| `Text.Capitalize` | paperfetcher/processor.py:75 | same length; a lower-case first letter becomes its upper-case letter, any other first character is kept; every later character is that of the lower-cased input |
| `Text.LowerIdempotent` | paperfetcher/processor.py:65 | lower-casing twice is lower-casing once |
| `Text.LowerOfCapitalize` | paperfetcher/processor.py:75 | capitalizing changes only letter case: its lower-cased form is the lower-cased input |
| `Text.ContainsInLowerHasNoUpper` | paperfetcher/processor.py:65-74 | a pattern found in a lower-cased string has no upper-case letter |
| `Text.JoinEmptyIff` | paperfetcher/cli.py:98-99 | with "; " as separator, a join is empty exactly for no parts or one empty part |
| `Text.JoinEnds` | paperfetcher/cli.py:98-99 | a join starts with its first part and ends with its last part |
| `Text.JoinConcat` | paperfetcher/processor.py:85 | joining a concatenation is the two joins with one separator between them |
| `Text.Join` | paperfetcher/cli.py:98-99 | no contract of its own; `str.join`, fixed on every list by `Text.JoinEmptyIff` (no parts), `Text.JoinOne` (one part) and `Text.JoinConcat` (longer lists); `Text.JoinEnds` adds prefix and suffix facts |
| `Text.JoinOne` | paperfetcher/cli.py:98-99 | a single part is joined to itself, with no separator |
| `Seqs.Filter` | paperfetcher/processor.py:100-103 | the comprehension is no longer than its input; every kept element is from the input and satisfies the test; every satisfying element is kept |
| `Seqs.FilterIndices` | paperfetcher/processor.py:100-103 | the kept elements are exactly the satisfying positions, in strictly increasing order, each once |
| `Seqs.FilterIdempotent` | paperfetcher/processor.py:98-104 | filtering a filtered list changes nothing |
| `Seqs.FilterMap` | paperfetcher/processor.py:45-88 | the appending loop yields at most one value per element, each value the result of some element |
| `Seqs.FilterMapIndices` | paperfetcher/cli.py:46-62 | the output is, in order, the values of exactly the positions that yield one, each once |
| `Seqs.FilterMapConcat` | paperfetcher/cli.py:46-62 | processing a concatenation is processing each half and concatenating: a skipped element never stops the loop |
| `Seqs.LastSome` | paperfetcher/processor.py:64-76 | the result is the value of some element with no later element yielding one; none exactly when no element yields one |
| `Processor.FirstMatch` | paperfetcher/processor.py:73-76 | the result is the first listed name contained in the text, with no earlier name contained; none exactly when no name is contained |
| `Processor.IsAcademic` | paperfetcher/processor.py:68 | no contract of its own; a fragment is academic when its lower-cased text contains one of the academic keywords |
| `Processor.FragmentCompanySpec` | paperfetcher/processor.py:64-76 | a fragment sets a company only if it is not academic; the company is the capitalized form of a listed name the lower-cased fragment contains, and is non-empty; no company exactly when the fragment is academic or contains no listed name |
| `Processor.FragmentCompany` | paperfetcher/processor.py:64-76 | no contract of its own; the company one fragment sets, characterised by `Processor.FragmentCompanySpec` |
| `Processor.BioNTechNeverMatches` | paperfetcher/processor.py:14-19 | the entry "bioNTech" is never contained in a lower-cased fragment |
| `Processor.AnyNonAcademic` | paperfetcher/processor.py:61-71 | `is_non_academic` is true iff some fragment contains no academic keyword; false for no fragments |
| `Processor.CompanyImpliesNonAcademic` | paperfetcher/processor.py:68-76 | a company implies `is_non_academic`, and the company name is non-empty |
| `Processor.LastCompany` | paperfetcher/processor.py:61-76 | no contract of its own; the company of the last fragment that sets one, characterised by `Seqs.LastSome` and `Processor.CompanyOrigin` |
| `Processor.CompanyOrigin` | paperfetcher/processor.py:61-76 | a company is the capitalized form of a listed name contained in a non-academic fragment, and no later fragment sets a company; no company iff no fragment sets one |
| `Processor.FindCompany` | paperfetcher/processor.py:72-76 | the `for ... break` search yields the capitalized first listed name contained in the fragment, or nothing when none is contained |
| `Processor.ClassifyAffiliations` | paperfetcher/processor.py:61-76 | the classification loop computes `AnyNonAcademic` and `LastCompany`: the company of the last fragment that sets one, which an academic or non-matching later fragment leaves unchanged |
| `Processor.AuthorOf` | paperfetcher/processor.py:45-49 | a node contributes an author iff its last name is non-empty, and that author is consistently classified |
| `Processor.BuildAuthor` | paperfetcher/processor.py:50-88 | no contract of its own; the author entry built from one node, characterised by `Processor.ExtractAuthor` and `Processor.AuthorOf` |
| `Processor.ExtractAuthor` | paperfetcher/processor.py:50-88 | name is ForeName + " " + LastName when ForeName is non-empty, else LastName; affiliation is the non-empty texts joined with "; "; `is_non_academic` iff some fragment is not academic; a company only with `is_non_academic` |
| `Processor.LastEmail` | paperfetcher/processor.py:78-81 | the email is that of some kept author whose email contains "@", with no later kept author having one; none iff no kept author has one |
| `Processor.ParseRecord` | paperfetcher/processor.py:21-96 | every author of a parsed record is consistently classified |
| `Processor.ParsePubmedXml` | paperfetcher/processor.py:21-96 | no record iff the XML is malformed, the article is missing, or PMID, title or year is missing or empty; otherwise id, title and year copied, the kept authors, and the last email |
| `Processor.ParsedAuthorsInDocumentOrder` | paperfetcher/processor.py:45-88 | the record's authors are the nodes with a last name, each once, in document order, built from their own node; never more than the Author entries |
| `Processor.FilterNonAcademicAuthors` | paperfetcher/processor.py:98-104 | every other field unchanged; each kept author is non-academic and from the input; every non-academic author is kept |
| `Processor.FilterKeepsOrder` | paperfetcher/processor.py:100-103 | the kept authors are the non-academic ones, in original order, each once |
| `Processor.AnyCompany` | paperfetcher/processor.py:108-111 | true iff some author in the list has a company that is not None |
| `Processor.FilterNonAcademicIdempotent` | paperfetcher/processor.py:98-104 | filtering twice gives the same record as filtering once |
| `Processor.HasPharmaAffiliation` | paperfetcher/processor.py:106-111 | true iff some author's company is not None |
| `Cli.AuthorNames` | paperfetcher/cli.py:86-88 | the name list has one name per author, in author order |
| `Cli.ToRow` | paperfetcher/cli.py:94-101 | the row's keys are exactly the six column names, in header order |
| `Cli.HeaderDistinct` | paperfetcher/cli.py:107 | the six column names are pairwise distinct |
| `Cli.RowColumns` | paperfetcher/cli.py:94-101 | id, title and date are copied; authors column is all names joined with "; " ("" for no authors); company column is the truthy companies joined; email column is the email or "" |
| `Cli.CompanyColumnInAuthorOrder` | paperfetcher/cli.py:89-92 | the companies listed are the truthy ones, in author order, duplicates kept |
| `Cli.CompanyNames` | paperfetcher/cli.py:89-92 | no contract of its own; the truthy companies, characterised by `Cli.CompanyColumnInAuthorOrder` |
| `Cli.PrepareCsvOutput` | paperfetcher/cli.py:82-102 | exactly one row per paper, in input order |
| `Cli.PharmaGateImpliesAuthors` | paperfetcher/cli.py:59-62 | for consistently classified authors, passing the company gate leaves an author with a company after filtering |
| `Cli.CompanyColumnNonEmpty` | paperfetcher/cli.py:89-99 | an author with a truthy company makes the company column non-empty |
| `Cli.FilteredRecordReportable` | paperfetcher/cli.py:59-62 | such a record, filtered, has authors, only non-academic ones, and a non-empty company column |
| `Cli.SelectIff` | paperfetcher/cli.py:50-62 | an id contributes exactly when its fetch has content, it parses and the company gate holds: the second gate never fails for parsed records |
| `Cli.Select` | paperfetcher/cli.py:50-62 | no contract of its own; what one fetch result contributes, characterised by `Cli.SelectIff` and `Cli.SelectReportable` |
| `Cli.SelectionInIdOrder` | paperfetcher/cli.py:45-62 | the results are the filtered records of exactly the passing ids, in id order, each once |
| `Cli.Selection` | paperfetcher/cli.py:45-62 | no contract of its own; the loop's results, characterised by `Cli.SelectionInIdOrder`, `Cli.SelectionPerId` and `Cli.SelectedRowsHaveCompanies` |
| `Cli.SelectReportable` | paperfetcher/cli.py:59-62 | whatever one id contributes is reportable |
| `Cli.SelectedRowsHaveCompanies` | paperfetcher/cli.py:45-62 | every selected paper has at least one author, only non-academic ones, and a non-empty company column |
| `Cli.SelectionPerId` | paperfetcher/cli.py:46-62 | each id's contribution sits between those of the ids before and after it, whatever they are |
| `Cli.OneIndustryAuthorScenario` | paperfetcher/cli.py:59-62 | an academic author plus a Pfizer author, both with their classification given rather than computed: the paper is kept with only the second author and the company column is "Pfizer" |
| `Cli.SelectPapers` | paperfetcher/cli.py:45-62 | the loop computes the selection |
| `Cli.Run` | paperfetcher/cli.py:37-69 | no ids ends with no output; no selected paper ends with no output; otherwise one row per selected paper, in order |

## Left out

- `paperfetcher/api.py` is not part of this model: the search and fetch calls are network I/O. The fetch result for each id, in search order, is an input (`Option<XmlContent>`). An empty text and `None` are both "no content".
- `ET.fromstring` and the ElementTree path lookups are a foreign library. The input is the parsed document (`PubmedDocument`). A lookup that finds nothing is `None`, and malformed XML is `XmlContent.Malformed`.
- The email text is abstracted too: it is the text of the lookup `.//Affiliation[@email]`, given per author.
- The error message printed for malformed XML, and the debug printing, are console output and are not modelled.
- `PHARMA_COMPANIES` is an unordered Python set, so the entry taken when several match one fragment depends on the set's iteration order. The model fixes the listing order. `Processor.FragmentCompanySpec` and `Processor.CompanyOrigin` only say "some matching entry"; `Processor.FirstMatch` relies on the fixed order.
- `str.lower` and `str.capitalize` are modelled over ASCII only: non-ASCII letters keep their case.
- Click option handling, `generate_default_filename` (reads the clock), and `save_to_csv`/`print_csv` are not modelled. These cover file and console output and the `csv` module's quoting. Only the row contents and column order are modelled.
- `sys.exit` codes are not modelled. The two early exits with status 0 become `Outcome.NoPapersFound` and `Outcome.NoPharmaPapers`.
- The outer `except Exception` handler (exit status 1) is not modelled: the modelled core raises no exception.
- `paperfetcher/models.py` holds only the `TypedDict` shapes, which become the datatypes of module `Models`.
