# Fund-switch form filler: a Dafny model

The repository is a script. It reads a Notion database of fund-switch requests. For every
request whose "Update PDF" checkbox is ticked, it fills a fund-switch PDF form. It resolves
the client's name and the policy number through two other Notion databases (clients and
policies). Afterwards it patches the request page so that the request is not processed again.

This project models the logic of that script, not its I/O:

- `Extraction` (`extraction.dfy`) models `extracting_fundswitch_database_page`.
  - Each page is flattened into a record.
  - Unticked pages are skipped.
  - A later page with the same id overwrites an earlier one.
  - The hard `[0]` indexing raises on an empty list; that raise becomes an `ExtractError`.
- `Directories` (`directories.dfy`) models the id-to-title tables that `get_all_client_ids_names`
  and `find_all_policy_numbers_ids` build, and the two lookups `match_client_id_name` and
  `match_policy_id_number`. For an id that is missing, the source hits an unbound local
  variable. Here that case is the `NotFound` error.
- `FundswitchForm` (`form.dfy`) models the per-record loop body:
  - the fixed checkbox entries;
  - the `;`-split, stripped switch fields written to numbered rows;
  - the `entry_data.update` overlay with the client name, policy number, NRIC and dates;
  - the write-back payload and the output file name.
- `Strings` (`strings.dfy`) models the Python string operations the form relies on:
  - `str.split(sep)`, which keeps empty pieces;
  - `str.strip()`, over the `str.isspace` character set;
  - the decimal rendering of a row index inside an f-string.
- `Wrappers` (`wrappers.dfy`) holds `Option` and `Result`; `RichText` (`richtext.dfy`) holds the rich-text run shared by the page and directory models.

Each loop in the source is a method proved equal to a left fold over the input prefix
(`ExtractAll`, `TableOf`, `RowEntries`). The properties are lemmas about those folds.

## Model

| member | source | states |
|---|---|---|
| Extraction.ExtractFundswitchPages | main.py:82-150 | the loop returns exactly the dictionary (or the first raised error) of the fold over the pages in order |
| Extraction.Flatten | main.py:84-128 | a ticked page flattens if and only if the policy relation, the client rollup and its first relation are non-empty and the remarks read succeeds; each `[0]` failure and the failed remarks read gives its own error, in source order; every record field is the page's corresponding value |
| Extraction.FirstText | main.py:94-121 | an empty rich-text list gives no value, otherwise the first run's text content |
| Extraction.RemarksOf | main.py:123-126 | an empty "Filename" title gives no remarks; otherwise a missing "Remarks" title gives none, an empty one raises, and a non-empty one gives its first run's content |
| Extraction.RemarksIgnoresFilenameText | main.py:123-126 | once "Filename" is non-empty, its text has no influence on the remarks |
| Extraction.ExtractErrSticks | main.py:83-130 | once a prefix of the pages raises, the whole extraction raises the same error |
| Extraction.ExtractKeptIff | main.py:83-132 | an id is a key of the result if and only if some ticked page carries it |
| Extraction.ExtractLastWins | main.py:132-146 | the record stored under an id is the flattening of the last ticked page with that id |
| Extraction.ExtractRecordsTicked | main.py:87-88 | every stored record has "Update PDF" set |
| Extraction.ExtractFailsIff | main.py:87-130 | the extraction raises if and only if some ticked page cannot be flattened; unticked pages are never read |
| Extraction.ExtractFirstFailure | main.py:83-130 | a raised extraction carries the error of the first ticked page that cannot be flattened |
| Directories.TitleText | main.py:167 | reading `props[name]["title"][0]["text"]["content"]` succeeds if and only if the property exists, its title is non-empty and its first run has text, and the result is that text |
| Directories.TableErrSticks | main.py:164-171 | once a prefix of the rows raises, the whole table build raises the same error |
| Directories.BuildTable | main.py:163-172 | the loop returns exactly the table (or the first raised error) of the fold over the rows in order |
| Directories.TableKeys | main.py:164-171 | the keys of a built table are exactly the ids of the listed rows |
| Directories.TableLastWins | main.py:164-171 | an id maps to the title of the last row that carries it |
| Directories.TableFailsIff | main.py:164-171 | the build raises if and only if some row's title cannot be read |
| Directories.GetAllClientIdsNames | main.py:161-172 | the client table over the "Name" title, keyed by exactly the listed client ids |
| Directories.FindAllPolicyNumbersIds | main.py:181-192 | the policy table over the "Policy number" title, keyed by exactly the listed policy ids |
| Directories.Match | main.py:174-179 | the lookup succeeds if and only if the id is a key, gives the mapped title, and otherwise reports the missing id |
| Directories.MatchBuiltTable | main.py:194-199 | a foreign key resolves through a built table if and only if some row carries it, and then to the title of the last such row |
| FundswitchForm.Segments | main.py:255-261 | a switch field with k separators gives k+1 pieces, each the stripped i-th `;`-piece |
| FundswitchForm.FormFor | main.py:253-311 | the form exists if and only if all four switch fields have a value; a missing field fails at its `split`, in the order the source splits them; the write-back clears "Update PDF", sets "PDF created", the creation date and `FundswitchForm_<client>`, and the PDF is named after that filename |
| FundswitchForm.AssignRows | main.py:263-284 | one `enumerate(…, start=1)` loop adds row i with the i-th value to the entries it is given |
| FundswitchForm.FillForm | main.py:220-311 | the loop body's step-by-step construction produces exactly `FormFor`'s result |
| FundswitchForm.ProcessRecord | main.py:248-251 | the client is resolved first, then the policy, then the form is filled; an unknown client or policy id fails with that id |
| FundswitchForm.RowEntriesKeys | main.py:263-268 | a row loop writes exactly the keys of rows 1 to the number of values |
| FundswitchForm.RowEntriesAt | main.py:263-268 | row i holds the i-th value |
| FundswitchForm.RowKeyInjective | main.py:264 | two rows of one family with the same key have the same index |
| FundswitchForm.RowKeysSeparate | main.py:263-284 | rows of different families never share a key, including "Allocation Row{i}" against "Allocation Row{j}_2" |
| FundswitchForm.SuffixedRowsDiffer | main.py:266-284 | no switch-out allocation key equals a switch-in allocation key |
| FundswitchForm.NotInOtherFamily | main.py:263-284 | a row key of one family is never written by another family's loop |
| FundswitchForm.NotRowLikeNotInRows | main.py:263-284 | a key that does not start like a row key is written by none of the four row loops |
| FundswitchForm.FixedFieldNames | main.py:220-245 | the fixed part holds the fourteen checkbox fields and the investment-experience field |
| FundswitchForm.FixedEntriesValues | main.py:220-245 | the fixed part ticks every listed checkbox and fills in the investment-experience answer |
| FundswitchForm.FixedFieldsNotRowLike | main.py:220-245 | no fixed field name starts like a row key |
| FundswitchForm.OverlayFieldNames | main.py:286-301 | no overlaid field name starts like a row key or like a fixed field name |
| FundswitchForm.FixedFieldsNotOverlaid | main.py:220-301 | the overlay writes none of the fixed fields |
| FundswitchForm.FamilyInEntry | main.py:263-301 | in the assembled entries, row i of a family is present exactly for 1 <= i <= the number of values and holds the i-th value |
| FundswitchForm.FixedSurvive | main.py:220-301 | fixed entries that neither the rows nor the overlay write reach the finished entries unchanged |
| FundswitchForm.SegmentRows | main.py:253-284 | a family filled from a split field lays out that field's stripped pieces as rows 1 to k+1 |
| FundswitchForm.OverlayValues | main.py:286-301 | the overlay sets both policy-number fields to the policy number, the three name fields to the client name, the three NRIC fields to the NRIC (or nothing), and the two dates |
| FundswitchForm.FormRows | main.py:253-284 | each of the four switch fields fills exactly its own numbered rows with its stripped pieces |
| FundswitchForm.FormCheckboxes | main.py:220-245 | every listed checkbox is still ticked in the finished form, and the investment-experience answer is unchanged |
| FundswitchForm.FormOverlaid | main.py:286-301 | the finished form carries the policy number, client name, NRIC and dates in the overlaid fields |
| FundswitchForm.WrittenBackNotReExtracted | main.py:306-311 | after the write-back payload the loop PATCHes onto a page, that page's id is extracted again only if another ticked page carries the same id |
| Strings.Strip | main.py:260 | neither end of the stripped string is whitespace |
| Strings.StripDecomposes | main.py:260 | every string is some whitespace, then its stripped form, then some whitespace |
| Strings.StripPadded | main.py:260 | stripping any trimmed text padded with whitespace on both sides gives that text back |
| Strings.StripIdempotent | main.py:260 | stripping twice is stripping once |
| Strings.StripAll | main.py:260-261 | the comprehension strips every piece and keeps the count |
| Strings.Split | main.py:255 | splitting gives one more piece than there are separators, and no piece contains the separator |
| Strings.JoinSplit | main.py:255 | joining the pieces with the separator gives the original string back |
| Strings.SplitJoin | main.py:255 | splitting the join of a non-empty list of separator-free pieces gives that list back |
| Strings.NatToString | main.py:264 | an index is rendered as a non-empty string of decimal digits with no leading zero (only 0 itself starts with '0'), the canonical form Python prints |
| Strings.ParseNatToString | main.py:264 | reading the rendered digits back gives the index |
| Strings.NatToStringInjective | main.py:264 | different indices render differently |

## Left out

- Network and file I/O is not part of this model:
  - `get_notion_database_pages`, the paged HTTP query. The page listings are parameters instead.
  - `update_notion_database`, the PATCH request. Its payload is modelled, and `ApplyWriteBack` applies it to a page.
  - `write_to_pdf` and the PDF widgets. The model produces the field-to-value map and the output file name.
  - `get_json_file` and the secrets and database ids.
- `datetime.now()` is not modelled. The three clock readings become the `Timestamps` parameter: two form dates and one creation date.
- `print` output is not modelled.
- The driver loop over all extracted records is not modelled. `ProcessRecord` is one iteration of it. The order of a Python dict's items is not modelled, because maps are unordered here.
- A rich-text property that is missing is treated as an empty list. The source reads both as "no text".
- A rich-text run without a `text` object is a `TextRun` with no content.
- `Extraction.Flatten`: a "Client Name" rollup without an `array`, or a first element without a `relation`, gives a `None` client id in the source. The model assumes both keys are present.
- `Extraction.Flatten`: the `KeyError`s from a page lacking "Update PDF", "Status" or "Policy Number", or an "id" key, are not modelled. The model's page always carries them.
- `Extraction.Flatten`: a page without a "Client Name" property makes the source raise `AttributeError`: the rollup lookup yields `None`, whose `.get` is then called. The model's page always carries the rollup.
- `Extraction.Flatten`: the `KeyError` from a page without a "url" is not modelled. The model's page always carries one.
- `Extraction.Flatten`: a null status (`None["name"]`) is not modelled. The status is always a name here.
- `Directories.TitleText`: a title run that is present but lacks `text` gives the `NoTextContent` error. The source raises a `KeyError` or `TypeError` there.
- The "Premium Redirection" fields and "Remarks" are extracted but never used by the form, as in the source.
